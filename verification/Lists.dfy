/**
  The linked list: how far it is drawn and linked, exactly, from any registry and wherever its
  cells live.  Each cell points to the next; a variable holds the first.  A cell is met once, so
  every link leads to its cell; what ends the drawing is the end of the list or a budget.
 */
module Lists {
  import opened Numbers
  import opened Options
  import opened HeapDelta
  import opened GdbHeap
  import opened Pointers
  import opened Driver
  import opened Drawings
  import opened Links
  import opened ShotCases

  /** Where the cells live: at different addresses, none of them nil. */
  predicate Places(at: seq<nat>) {
    && at != [] && (forall i | 0 <= i < |at| :: at[i] != 0)
    && forall i, j | 0 <= i < j < |at| :: at[i] != at[j]
  }

  function After(at: seq<nat>, i: nat): nat { if i + 1 < |at| then at[i + 1] else 0 }

  function Next(at: seq<nat>, i: nat): GValue { Pointer(After(at, i), Some("Cell")) }

  function Cell(at: seq<nat>, i: nat): GValue
    requires i < |at|
  {
    Struct(Some(at[i]), "Cell", [(Some("next"), Some(Next(at, i)))])
  }

  function CellKey(at: seq<nat>, i: nat): Key
    requires i < |at|
  {
    Key("s", At(Some(at[i])), "Cell", None)
  }

  function CellBox(at: seq<nat>, i: nat): GBox {
    ObjectBox("Cell", map["next" := PtrSlot(After(at, i))], false)
  }

  /** The memory holds the cells, whatever else it holds. */
  predicate HoldsList(mem: Memory, at: seq<nat>) {
    forall i: nat | 0 < i < |at| :: (at[i], "Cell") in mem && mem[(at[i], "Cell")] == Cell(at, i)
  }

  // ---- drawing cell after cell -----------------------------------------------------------------

  /** The first `m` cells are drawn, and the pointer to the next one, if there is one, waits. */
  ghost predicate Chained(h: HeapState, at: seq<nat>, m: nat) {
    && 0 < m <= |at| && |h.used| == m && Inv(h, {})
    && h.pending == (if m < |at| then [Pointer(at[m], Some("Cell"))] else [])
    && (forall i: nat | i < |at| :: CellKey(at, i) in h.used <==> i < m)
    && (forall i: nat | i < |at| :: at[i] in h.byAddress <==> i < m)
    && BoxesChained(h, at, m)
  }

  ghost predicate BoxesChained(h: HeapState, at: seq<nat>, m: nat)
    requires m <= |at|
  {
    && (forall i: nat | i < m :: CellKey(at, i) in h.ids)
    && (forall i: nat | i < m :: at[i] in h.byAddress && h.byAddress[at[i]] == h.ids[CellKey(at, i)])
    && (forall i: nat | i < m :: h.ids[CellKey(at, i)] in h.boxes && h.boxes[h.ids[CellKey(at, i)]] == CellBox(at, i))
    && (forall r | r in h.boxes :: exists i: nat :: i < m && r == h.ids[CellKey(at, i)])
  }

  lemma CellContents(at: seq<nat>, i: nat, g: HeapState)
    requires i < |at|
    ensures AfterContents(Cell(at, i), 0, g) ==
              (if After(at, i) != 0 then AfterHang(Next(at, i), g) else g, CellBox(at, i))
  {
    hide AfterValue;
    var v := Cell(at, i);
    PointerDrawn(Next(at, i), 1, g);
    assert AfterFields(v, v.fields, 0, 1, g) == (g, map[]);
    assert AfterFields(v, v.fields, 1, 1, g) ==
      (if After(at, i) != 0 then AfterHang(Next(at, i), g) else g, map["next" := PtrSlot(After(at, i))]);
  }

  /** What a new cell does to the state; `r` is its id, new or registered. */
  ghost predicate OneMore(g: HeapState, h: HeapState, at: seq<nat>, i: nat, r: Id)
    requires i < |at|
  {
    && h.used == g.used + {CellKey(at, i)} && h.ids == g.ids[CellKey(at, i) := r]
    && h.byAddress == g.byAddress[at[i] := r] && h.boxes == g.boxes[r := CellBox(at, i)]
    && h.pending == if After(at, i) != 0 then [Next(at, i)] else []
  }

  function IdAt(g: HeapState, key: Key): Id {
    if key in g.ids then g.ids[key] else g.counter + 1
  }

  lemma CellDrawn(g: HeapState, at: seq<nat>, i: nat)
    requires Places(at) && i < |at| && Inv(g, {}) && g.pending == []
    requires CellKey(at, i) !in g.used && |g.used| < MAX_HEAP_OBJECTS
    ensures var h := AfterValue(Cell(at, i), 0, g).0;
            OneMore(g, h, at, i, IdAt(g, CellKey(at, i))) && Inv(h, {}) && IdAt(g, CellKey(at, i)) !in g.boxes
  {
    hide Inv, AfterIdentify, AfterContents, CellBox, EmptyBox, Adds, SlotSettled, SlotG, Places, Identified, AfterHang;
    var v, key, r := Cell(at, i), CellKey(at, i), IdAt(g, CellKey(at, i));
    ValueDrawn(v, 0, g, {});
    IdentifiedOrFull(g, v, key, {});
    BoxedIffUsed(g, key, r, {});
    NotNil(at, i);
    var (h1, rid) := AfterIdentify(v, key, g);
    CellIdentified(g, h1, at, i, rid.value);
    var h2 := WithReserved(h1, r, v, 0);
    CellContents(at, i, h2);
    assert AfterValue(v, 0, g) == AfterBox(v, key, 0, g);
    CellFilled(g, h2, at, i, r);
  }

  lemma CellIdentified(g: HeapState, h: HeapState, at: seq<nat>, i: nat, r: Id)
    requires i < |at| && at[i] != 0 && Identified(g, h, Cell(at, i), CellKey(at, i), r)
    ensures r == IdAt(g, CellKey(at, i)) && h.used == g.used + {CellKey(at, i)} && h.ids == g.ids[CellKey(at, i) := r]
    ensures h.byAddress == g.byAddress[at[i] := r] && h.pending == g.pending
  {
  }

  lemma CellFilled(g: HeapState, h: HeapState, at: seq<nat>, i: nat, r: Id)
    requires i < |at| && g.pending == [] && h.pending == [] && h.boxes == g.boxes[r := EmptyBox(Cell(at, i))]
    requires h.used == g.used + {CellKey(at, i)} && h.ids == g.ids[CellKey(at, i) := r]
    requires h.byAddress == g.byAddress[at[i] := r]
    ensures var k := if After(at, i) != 0 then AfterHang(Next(at, i), h) else h;
            OneMore(g, k.(boxes := k.boxes[r := CellBox(at, i)]), at, i, r)
  {
    hide CellBox, EmptyBox;
    assert h.boxes[r := CellBox(at, i)] == g.boxes[r := CellBox(at, i)];
  }

  lemma NotNil(at: seq<nat>, i: nat)
    requires Places(at) && i < |at|
    ensures at[i] != 0
  {
  }

  lemma FirstDrawn(g: HeapState, at: seq<nat>)
    requires Places(at) && Inv(g, {}) && g.used == {} && g.boxes == map[] && g.byAddress == map[] && g.pending == []
    ensures Chained(AfterValue(Cell(at, 0), 0, g).0, at, 1)
  {
    hide AfterValue, Inv, CellBox;
    CellDrawn(g, at, 0);
    assert {} + {CellKey(at, 0)} == {CellKey(at, 0)};
  }

  lemma NextDrawn(h: HeapState, at: seq<nat>, m: nat)
    requires Places(at) && Chained(h, at, m) && m < |at| && m < MAX_HEAP_OBJECTS && Inv(h.(pending := []), {})
    ensures Chained(AfterValue(Cell(at, m), 0, h.(pending := [])).0, at, m + 1)
  {
    hide AfterValue, Inv, CellBox, Chained, Cell;
    var g := h.(pending := []);
    NotDrawnYet(h, at, m);
    CellDrawn(g, at, m);
    OneMoreChained(h, AfterValue(Cell(at, m), 0, g).0, at, m, IdAt(g, CellKey(at, m)));
  }

  lemma NotDrawnYet(h: HeapState, at: seq<nat>, m: nat)
    requires Chained(h, at, m) && m < |at|
    ensures CellKey(at, m) !in h.used && |h.used| == m
  {
    hide Inv;
  }

  lemma OneMoreChained(h: HeapState, h': HeapState, at: seq<nat>, m: nat, r: Id)
    requires Places(at) && Chained(h, at, m) && m < |at| && Inv(h', {})
    requires OneMore(h.(pending := []), h', at, m, r) && r !in h.boxes
    ensures Chained(h', at, m + 1)
  {
    hide Inv, CellBox, BoxesChained;
    OtherKeys(at, m);
    OneMoreBox(h, h', at, m, r);
    hide Places;
  }

  lemma OneMoreBox(h: HeapState, h': HeapState, at: seq<nat>, m: nat, r: Id)
    requires Places(at) && m < |at| && BoxesChained(h, at, m)
    requires OneMore(h.(pending := []), h', at, m, r) && r !in h.boxes
    ensures BoxesChained(h', at, m + 1)
  {
    hide CellBox, CellKey, Next;
    OtherKeys(at, m);
    hide Places;
    assert forall i: nat | i < m :: h.ids[CellKey(at, i)] != r && h'.ids[CellKey(at, i)] == h.ids[CellKey(at, i)];
    assert h'.ids[CellKey(at, m)] == r;
    forall x | x in h'.boxes ensures exists i: nat :: i < m + 1 && x == h'.ids[CellKey(at, i)] {
      if x != r {
        var i: nat :| i < m && x == h.ids[CellKey(at, i)];
        assert x == h'.ids[CellKey(at, i)];
      }
    }
  }

  lemma OtherKeys(at: seq<nat>, m: nat)
    requires Places(at) && m < |at|
    ensures forall i: nat | i < |at| && i != m :: CellKey(at, i) != CellKey(at, m) && at[i] != at[m]
    ensures After(at, m) != 0 <==> m + 1 < |at|
  {
  }

  /** How many cells are drawn: the list, one more than a step's expansions, one more than what is
      left of the trace's. */
  function Extent(n: nat, left: nat): nat {
    Min(n, Min(MAX_EXPANDED_PER_STEP + 1, left + 1))
  }

  lemma NothingLeft(e: Expansion, at: seq<nat>)
    requires |e.read| <= MAX_EXPANDED_PER_STEP && Chained(e.h, at, |e.read| + 1) && Rests(e)
    ensures |e.read| + 1 == Extent(|at|, e.left + |e.read|)
  {
    hide Inv;
  }

  lemma CellWaits(e: Expansion, mem: Memory, at: seq<nat>)
    requires Places(at) && HoldsList(mem, at) && |e.read| <= MAX_EXPANDED_PER_STEP
    requires Chained(e.h, at, |e.read| + 1) && !Rests(e)
    ensures var m := |e.read| + 1;
            && m < |at| && e.h.pending == [Pointer(at[m], Some("Cell"))] && at[m] !in e.h.byAddress
            && Readable(mem, Pointer(at[m], Some("Cell"))) && Pointee(mem, Pointer(at[m], Some("Cell"))) == Cell(at, m)
  {
    hide Inv;
  }

  lemma PoppedInv(h: HeapState, p: GValue)
    requires Inv(h, {}) && h.pending == [p]
    ensures Inv(h.(pending := []), {})
  {
    hide Inv;
    KeepsReflexive(h, {});
    assert h.pending[1..] == [];
    PopKeepsInv(h, h, h.(pending := h.pending[1..]));
  }

  lemma ChainedInv(h: HeapState, at: seq<nat>, m: nat)
    requires Chained(h, at, m)
    ensures Inv(h, {})
  {
    hide Inv;
  }

  lemma {:induction false} ListExpanded(e: Expansion, mem: Memory, seen: set<nat>, at: seq<nat>)
    requires Places(at) && HoldsList(mem, at) && |e.read| <= MAX_EXPANDED_PER_STEP && Chained(e.h, at, |e.read| + 1)
    requires forall i: nat | |e.read| < i < |at| :: at[i] !in seen
    ensures var m := Extent(|at|, e.left + |e.read|); m > 0 && Chained(Expand(e, mem, seen).h, at, m)
    decreases MAX_EXPANDED_PER_STEP - |e.read|
  {
    hide AfterValue, CellBox, Chained, HoldsList, Readable, Cell, Inv;
    if Rests(e) {
      NothingLeft(e, at);
    } else {
      var m, p, next := |e.read| + 1, e.h.pending[0], Turn(e);
      CellWaits(e, mem, at);
      ChainedInv(e.h, at, m);
      PoppedInv(e.h, p);
      assert next.h == e.h.(pending := []);
      NextDrawn(e.h, at, m);
      ListExpanded(Reads(next, mem, p), mem, seen + {p.target}, at);
    }
  }

  // ---- linking -----------------------------------------------------------------------------------

  /** The box of cell `i` when `m` are drawn: it leads to the next one, if that is drawn. */
  function LinkedBox(ids: map<Key, Id>, at: seq<nat>, i: nat, m: nat): GBox
    requires i < m <= |at| && (i + 1 < m ==> CellKey(at, i + 1) in ids)
  {
    ObjectBox("Cell", map["next" := if i + 1 < m then RefSlot(ids[CellKey(at, i + 1)])
      else PtrSlot(After(at, i))], false)
  }

  /** The boxes are those of the first `m` cells, each leading to the next one drawn. */
  ghost predicate LinkedTo(boxes: map<Id, GBox>, ids: map<Key, Id>, at: seq<nat>, m: nat) {
    && m <= |at| && (forall i: nat | i < m :: CellKey(at, i) in ids)
    && (forall i: nat | i < m :: var r := ids[CellKey(at, i)]; r in boxes && boxes[r] == LinkedBox(ids, at, i, m))
    && forall r | r in boxes :: exists i: nat :: i < m && r == ids[CellKey(at, i)]
  }

  lemma CellsLinked(h: HeapState, at: seq<nat>, m: nat)
    requires Places(at) && Chained(h, at, m)
    ensures LinkedTo(LinkBoxes(h.boxes, h.byAddress), h.ids, at, m)
  {
    hide Inv, LinkBox, LinkedBox;
    forall i: nat | i < m
      ensures LinkBox(h.boxes[h.ids[CellKey(at, i)]], h.byAddress) == LinkedBox(h.ids, at, i, m)
    {
      CellLinked(h, at, i, m);
    }
  }

  lemma CellLinked(h: HeapState, at: seq<nat>, i: nat, m: nat)
    requires Places(at) && Chained(h, at, m) && i < m
    ensures LinkBox(h.boxes[h.ids[CellKey(at, i)]], h.byAddress) == LinkedBox(h.ids, at, i, m)
  {
    hide Inv;
    var t := After(at, i);
    NextLinked(t, if i + 1 < m then RefSlot(h.ids[CellKey(at, i + 1)]) else PtrSlot(t), h.byAddress);
  }

  lemma NextLinked(t: nat, slot: GSlot, byAddress: map<nat, Id>)
    requires LinkSlot(PtrSlot(t), byAddress) == slot
    ensures LinkMap(map["next" := PtrSlot(t)], byAddress) == map["next" := slot]
  {
  }

  /** A list wherever its cells live, in any memory, from any registry and with any budget, is drawn
      and linked exactly as far as `Extent`; the last box shows the address of the next cell, or nil. */
  lemma ListIsDrawn(reg: Reg, left: nat, mem: Memory, at: seq<nat>)
    requires RegistryOk(reg.ids, reg.counter, reg.names) && Places(at) && HoldsList(mem, at)
    ensures var shot := Shoot(reg, left, [Showing(Cell(at, 0))], mem);
            LinkedTo(shot.boxes, shot.e.h.ids, at, Extent(|at|, left))
  {
    hide AfterValue, Expand, AfterFrames, StateOf, LinkedTo, LinkBoxes, Chained, Inv, HoldsList, Cell;
    var none: map<Id, GBox> := map[];
    var g := StateOf(reg, none);
    EmptyIsInv(reg);
    NothingYet(reg);
    OneVariable(Cell(at, 0), g);
    FirstDrawn(g, at);
    var h := AfterValue(Cell(at, 0), 0, g).0;
    ListExpanded(StartOf(h, left), mem, {}, at);
    CellsLinked(AfterExpansion(h, left, mem).h, at, Extent(|at|, left));
  }

  lemma NothingYet(reg: Reg)
    ensures var none: map<Id, GBox> := map[]; var g := StateOf(reg, none);
            g.boxes == map[] && g.byAddress == map[] && g.pending == []
  {
  }

  /** So it is drawn to its end if and only if both budgets suffice. */
  lemma ListReachesItsEndIff(reg: Reg, left: nat, mem: Memory, at: seq<nat>)
    requires RegistryOk(reg.ids, reg.counter, reg.names) && Places(at) && HoldsList(mem, at)
    ensures var shot := Shoot(reg, left, [Showing(Cell(at, 0))], mem);
            LinkedTo(shot.boxes, shot.e.h.ids, at, |at|) <==> |at| <= MAX_EXPANDED_PER_STEP + 1 && |at| <= left + 1
  {
    hide Shoot, LinkedTo, ShotDraws, Keeps, HoldsList, RegistryOk, Cell;
    ListIsDrawn(reg, left, mem, at);
    var frames := [Showing(Cell(at, 0))];
    var shot := Shoot(reg, left, frames, mem);
    if Extent(|at|, left) < |at| {
      ShotIsDrawn(reg, left, frames, mem);
      RegistryOfDrawn(shot, frames, mem);
      Shorter(shot.boxes, shot.e.h, at, Extent(|at|, left));
    }
  }

  lemma Shorter(boxes: map<Id, GBox>, h: HeapState, at: seq<nat>, m: nat)
    requires RegistryOk(h.ids, h.counter, h.names) && Places(at) && m < |at| && LinkedTo(boxes, h.ids, at, m)
    ensures !LinkedTo(boxes, h.ids, at, |at|)
  {
    hide LinkedBox;
    var last := CellKey(at, |at| - 1);
    assert forall i: nat | i < m :: CellKey(at, i) in h.ids && CellKey(at, i) != last;
    assert last in h.ids ==> h.ids[last] !in boxes;
  }
}
