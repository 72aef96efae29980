/**
  A snapshot foretold: which aggregates are met, in which order, and what is read, from the frames,
  the memory and the budget alone.  A tour has no ids, boxes or registry; `Shoot` follows it, so
  where every link leads is decided before anything is drawn.
 */
module Tours {
  import opened Options
  import opened HeapDelta
  import opened GdbHeap
  import opened Pointers
  import opened Driver
  import opened Drawings
  import opened Links

  // ---- the pointers that a value hangs ---------------------------------------------------------

  /** The pointers met in drawing a value, in order, given the keys that are boxed before. */
  function Hung(v: GValue, depth: nat, used: set<Key>): seq<GValue>
    decreases v, 2, 0
  {
    if v.Pointer? then if v.target != 0 then [v] else []
    else if KeyOf(v).None? || depth >= MAX_DEPTH || KeyOf(v).value in used || |used| >= MAX_HEAP_OBJECTS then []
    else HungParts(v, depth, used + {KeyOf(v).value})
  }

  function HungParts(v: GValue, depth: nat, used: set<Key>): seq<GValue>
    decreases v, 1, 0
  {
    match v
    case Struct(_, _, fields) => HungFields(v, fields, Drawn(v), depth + 1, used)
    case Array(_, _, cells) => HungCells(v, cells, Drawn(v), depth + 1, used)
    case Slice(_, _, _, _, _, cells) => HungCells(v, cells, Drawn(v), depth + 1, used)
    case _ => []
  }

  function HungCells(v: GValue, cells: seq<Option<GValue>>, n: nat, depth: nat, used: set<Key>): seq<GValue>
    requires (v.Array? || v.Slice?) && cells == v.cells
    decreases v, 0, n
  {
    if n == 0 then []
    else
      var before := HungCells(v, cells, n - 1, depth, used);
      if n - 1 < |cells| && cells[n - 1].Some? then
        before + Hung(cells[n - 1].value, depth, CellVisits(v, cells, n - 1, depth, used).1)
      else before
  }

  function HungFields(v: GValue, fs: seq<(Option<string>, Option<GValue>)>, n: nat, depth: nat, used: set<Key>)
      : seq<GValue>
    requires v.Struct? && fs == v.fields && n <= |fs|
    decreases v, 0, n
  {
    if n == 0 then []
    else
      var before := HungFields(v, fs, n - 1, depth, used);
      if fs[n - 1].0.Some? && fs[n - 1].1.Some? then
        before + Hung(fs[n - 1].1.value, depth, FieldVisits(v, fs, n - 1, depth, used).1)
      else before
  }

  /** A queue keeps the first 400. */
  function Capped(q: seq<GValue>): seq<GValue> {
    if |q| <= MAX_POINTERS then q else q[..MAX_POINTERS]
  }

  lemma CappedTwice(a: seq<GValue>, b: seq<GValue>, c: seq<GValue>)
    ensures Capped(Capped(a + b) + c) == Capped(a + (b + c))
  {
    assert a + (b + c) == (a + b) + c;
  }

  ghost predicate Hangs(g: HeapState, h: HeapState, hung: seq<GValue>) {
    h.pending == Capped(g.pending + hung)
  }

  lemma HangsTransitive(f: HeapState, g: HeapState, h: HeapState, a: seq<GValue>, b: seq<GValue>)
    requires Hangs(f, g, a) && Hangs(g, h, b)
    ensures Hangs(f, h, a + b)
  {
    CappedTwice(f.pending, a, b);
  }

  lemma HangsNothing(g: HeapState, h: HeapState, open: set<Id>)
    requires Inv(g, open) && h.pending == g.pending
    ensures Hangs(g, h, [])
  {
    hide UsedOk, DrawnOk, RegistryOk;
    assert g.pending + [] == g.pending;
  }

  lemma {:induction false} ValueHangs(v: GValue, depth: nat, g: HeapState, open: set<Id>)
    requires Inv(g, open)
    ensures Hangs(g, AfterValue(v, depth, g).0, Hung(v, depth, g.used))
    decreases v, 3, 0
  {
    hide Inv, AfterBox, HungParts;
    HangsNothing(g, g, open);
    if v.Pointer? && v.target != 0 {
      PointerHangs(v, g, open);
    } else if KeyOf(v).Some? && depth < MAX_DEPTH {
      NoPointer(v);
      BoxHangs(v, KeyOf(v).value, depth, g, open);
    }
  }

  lemma NoPointer(v: GValue)
    requires KeyOf(v).Some?
    ensures !v.Pointer?
  {
  }

  lemma PointerHangs(v: GValue, g: HeapState, open: set<Id>)
    requires Inv(g, open)
    ensures Hangs(g, AfterHang(v, g), [v])
  {
    hide UsedOk, DrawnOk, RegistryOk;
  }

  lemma {:induction false} BoxHangs(v: GValue, key: Key, depth: nat, g: HeapState, open: set<Id>)
    requires Inv(g, open) && KeyOf(v) == Some(key) && depth < MAX_DEPTH && !v.Pointer?
    ensures Hangs(g, AfterBox(v, key, depth, g).0, Hung(v, depth, g.used))
    decreases v, 2, 0
  {
    hide Inv, AfterIdentify, AfterContents, KeyOf, HungParts, EmptyBox, Adds, Identified, Hangs;
    IdentifiedOrFull(g, v, key, open);
    HangsNothing(g, g, open);
    var (h1, rid) := AfterIdentify(v, key, g);
    if rid.Some? {
      var r := rid.value;
      IdentifiedQueue(g, h1, v, key, r);
      IdentifiedId(g, h1, v, key, r);
      RoomFor(g, h1, v, key, r);
      BoxedIffUsed(g, key, r, open);
      if r !in h1.boxes {
        var h2 := WithReserved(h1, r, v, depth);
        ReservedKeepsInv(g, h2, v, key, depth, open);
        PartsHang(v, depth, h2, open + {r});
        HangsThrough(g, h2, AfterContents(v, depth, h2).0, AfterBox(v, key, depth, g).0, HungParts(v, depth, h2.used));
      } else {
        HangsNothing(g, h1, open);
      }
    } else {
      HangsNothing(g, h1, open);
    }
  }

  lemma IdentifiedQueue(g: HeapState, h: HeapState, v: GValue, key: Key, r: Id)
    requires Identified(g, h, v, key, r)
    ensures h.pending == g.pending && h.used == g.used + {key}
  {
  }

  lemma HangsThrough(g: HeapState, h: HeapState, k: HeapState, k': HeapState, hung: seq<GValue>)
    requires h.pending == g.pending && Hangs(h, k, hung) && k'.pending == k.pending
    ensures Hangs(g, k', hung)
  {
  }

  lemma {:induction false} PartsHang(v: GValue, depth: nat, g: HeapState, open: set<Id>)
    requires Inv(g, open) && KeyOf(v).Some?
    ensures Hangs(g, AfterContents(v, depth, g).0, HungParts(v, depth, g.used))
    decreases v, 1, 0
  {
    hide Inv, Hangs, AfterCells, AfterFields, HungCells, HungFields;
    match v
    case Struct(_, _, fields) => FieldsHang(v, fields, Drawn(v), depth + 1, g, open);
    case Array(_, _, cells) => CellsHang(v, cells, Drawn(v), depth + 1, g, open);
    case Slice(_, _, _, _, _, cells) => CellsHang(v, cells, Drawn(v), depth + 1, g, open);
    case Dictionary(_, _, _, _) => HangsNothing(g, g, open);
  }

  lemma {:induction false} CellsHang(v: GValue, cells: seq<Option<GValue>>, n: nat, depth: nat, g: HeapState,
                                     open: set<Id>)
    requires Inv(g, open) && (v.Array? || v.Slice?) && cells == v.cells
    ensures Hangs(g, AfterCells(v, cells, n, depth, g).0, HungCells(v, cells, n, depth, g.used))
    decreases v, 0, n
  {
    hide Inv, Hangs, Led, AfterValue, Hung, Adds, CellVisits, CellsSettled, CellsG;
    HangsNothing(g, g, open);
    if n > 0 {
      CellsHang(v, cells, n - 1, depth, g, open);
      CellsFollow(v, cells, n - 1, depth, g, open);
      CellsDrawn(v, cells, n - 1, depth, g, open);
      var (h, _) := AfterCells(v, cells, n - 1, depth, g);
      if n - 1 < |cells| && cells[n - 1].Some? {
        var x := cells[n - 1].value;
        ValueHangs(x, depth, h, open);
        HangsTransitive(g, h, AfterValue(x, depth, h).0, HungCells(v, cells, n - 1, depth, g.used),
          Hung(x, depth, h.used));
      }
    }
  }

  lemma {:induction false} FieldsHang(v: GValue, fs: seq<(Option<string>, Option<GValue>)>, n: nat, depth: nat,
                                      g: HeapState, open: set<Id>)
    requires Inv(g, open) && v.Struct? && fs == v.fields && n <= |fs|
    ensures Hangs(g, AfterFields(v, fs, n, depth, g).0, HungFields(v, fs, n, depth, g.used))
    decreases v, 0, n
  {
    hide Inv, Hangs, Led, AfterValue, Hung, Adds, FieldVisits, FieldsSettled, FieldsG;
    HangsNothing(g, g, open);
    if n > 0 {
      FieldsHang(v, fs, n - 1, depth, g, open);
      FieldsFollow(v, fs, n - 1, depth, g, open);
      FieldsDrawn(v, fs, n - 1, depth, g, open);
      var (h, _) := AfterFields(v, fs, n - 1, depth, g);
      if fs[n - 1].0.Some? && fs[n - 1].1.Some? {
        var x := fs[n - 1].1.value;
        ValueHangs(x, depth, h, open);
        HangsTransitive(g, h, AfterValue(x, depth, h).0, HungFields(v, fs, n - 1, depth, g.used),
          Hung(x, depth, h.used));
      }
    }
  }

  // ---- the tour ----------------------------------------------------------------------------------

  /** The aggregates met so far, the keys boxed, the pointers that wait, and what was read. */
  datatype Tour = Tour(visits: seq<Sight>, used: set<Key>, waiting: seq<GValue>, left: nat, read: seq<(nat, string)>)

  /** One value drawn. */
  function Seeing(t: Tour, v: GValue): Tour {
    var (now, used) := Visits(v, 0, t.used);
    t.(visits := t.visits + now, used := used, waiting := Capped(t.waiting + Hung(v, 0, t.used)))
  }

  /** The variables of a frame, one after the other. */
  function SeeingFrame(t: Tour, f: Frame): Tour {
    var (now, used) := FieldVisits(Struct(None, "", f), f, |f|, 0, t.used);
    t.(visits := t.visits + now, used := used,
       waiting := Capped(t.waiting + HungFields(Struct(None, "", f), f, |f|, 0, t.used)))
  }

  function SeeingFrames(t: Tour, frames: seq<Frame>, n: nat): Tour
    requires n <= |frames|
  {
    if n == 0 then t else SeeingFrame(SeeingFrames(t, frames, n - 1), frames[n - 1])
  }

  /** Following the waiting pointers, breadth first and under the same budgets. */
  function Touring(t: Tour, mem: Memory, seen: set<nat>): Tour
    requires |t.read| <= MAX_EXPANDED_PER_STEP
    decreases MAX_EXPANDED_PER_STEP - |t.read|, |t.waiting|
  {
    if t.waiting == [] || |t.used| >= MAX_HEAP_OBJECTS || |t.read| >= MAX_EXPANDED_PER_STEP || t.left == 0 then t
    else
      var p, next := t.waiting[0], t.(waiting := t.waiting[1..]);
      if !p.Pointer? || p.target == 0 || p.target in seen || Resident(t.visits, p.target).Some? then
        Touring(next, mem, seen)
      else if !Readable(mem, p) then Touring(next, mem, seen + {p.target})
      else Touring(Seeing(next, Pointee(mem, p)).(left := t.left - 1, read := t.read + [(p.target, p.pointee.value)]),
                   mem, seen + {p.target})
  }

  /** The whole tour of a snapshot, decided by its frames, the memory and the budget. */
  function StepTour(frames: seq<Frame>, left: nat, mem: Memory): Tour {
    var t := SeeingFrames(Tour([], {}, [], left, []), frames, |frames|);
    if |t.read| <= MAX_EXPANDED_PER_STEP then Touring(t, mem, {}) else t
  }

  // ---- the snapshot follows it -------------------------------------------------------------------

  /** The expansion stands where the tour does. */
  ghost predicate OnTour(e: Expansion, t: Tour) {
    && e.h.used == t.used && e.h.pending == t.waiting && e.left == t.left && e.read == t.read
    && Led(map[], e.h.byAddress, t.visits, e.h.ids)
  }

  lemma {:induction false} FramesOnTour(frames: seq<Frame>, n: nat, g: HeapState, t: Tour)
    requires n <= |frames| && Inv(g, {}) && OnTour(StartOf(g, t.left), t)
    ensures OnTour(StartOf(AfterFrames(frames, n, g).0, t.left), SeeingFrames(t, frames, n))
  {
    hide Inv, Led, AfterFields, FieldVisits, HungFields, Adds, FieldsSettled, FieldsG, FrameDrawn;
    if n > 0 {
      FramesOnTour(frames, n - 1, g, t);
      FramesDrawn(frames, n - 1, g);
      var (h, _) := AfterFrames(frames, n - 1, g);
      var f := frames[n - 1];
      var v := Struct(None, "", f);
      FieldsFollow(v, f, |f|, 0, h, {});
      FieldsHang(v, f, |f|, 0, h, {});
      FieldsDrawn(v, f, |f|, 0, h, {});
      var h' := AfterFields(v, f, |f|, 0, h).0;
      AddedIds(h, h');
      LedTransitive(map[], h.byAddress, h'.byAddress, SeeingFrames(t, frames, n - 1).visits,
        FieldVisits(v, f, |f|, 0, h.used).0, h.ids, h'.ids);
    }
  }

  lemma AddedIds(g: HeapState, h: HeapState)
    requires Adds(g, h)
    ensures forall k | k in g.ids :: k in h.ids && h.ids[k] == g.ids[k]
  {
  }

  lemma ValueOnTour(v: GValue, e: Expansion, t: Tour)
    requires Inv(e.h, {}) && OnTour(e, t)
    ensures OnTour(e.(h := AfterValue(v, 0, e.h).0), Seeing(t, v)) && Inv(AfterValue(v, 0, e.h).0, {})
  {
    hide Inv, Led, AfterValue, Visits, Hung, Adds, SlotSettled, SlotG;
    var h := AfterValue(v, 0, e.h).0;
    ValueFollows(v, 0, e.h, {});
    ValueHangs(v, 0, e.h, {});
    ValueDrawn(v, 0, e.h, {});
    AddedIds(e.h, h);
    LedTransitive(map[], e.h.byAddress, h.byAddress, t.visits, Visits(v, 0, e.h.used).0, e.h.ids, h.ids);
  }

  lemma {:induction false} ExpandOnTour(e: Expansion, t: Tour, mem: Memory, seen: set<nat>)
    requires |e.read| <= MAX_EXPANDED_PER_STEP && Inv(e.h, {}) && OnTour(e, t)
    ensures OnTour(Expand(e, mem, seen), Touring(t, mem, seen))
    decreases MAX_EXPANDED_PER_STEP - |e.read|, |e.h.pending|
  {
    hide Inv, AfterValue, Seeing, Keeps, Resident, IdOf;
    if !Rests(e) {
      var p, next := e.h.pending[0], Turn(e);
      var later := t.(waiting := t.waiting[1..]);
      assert Keeps(e.h, e.h) by {
        KeepsReflexive(e.h, {});
      }
      PopKeepsInv(e.h, e.h, next.h);
      assert p.Pointer? ==> (p.target in e.h.byAddress <==> Resident(t.visits, p.target).Some?);
      hide Led;
      assert OnTour(next, later);
      if !p.Pointer? || p.target == 0 || p.target in seen || p.target in e.h.byAddress {
        ExpandOnTour(next, later, mem, seen);
      } else if !Readable(mem, p) {
        ExpandOnTour(next, later, mem, seen + {p.target});
      } else {
        ValueOnTour(Pointee(mem, p), next, later);
        var now := Seeing(later, Pointee(mem, p)).(left := t.left - 1, read := t.read + [(p.target, p.pointee.value)]);
        SeeingKeeps(later, Pointee(mem, p));
        ExpandOnTour(Reads(next, mem, p), now, mem, seen + {p.target});
      }
    }
  }

  lemma SeeingKeeps(t: Tour, v: GValue)
    ensures Seeing(t, v).left == t.left && Seeing(t, v).read == t.read
  {
  }

  lemma {:induction false} FramesReadNothing(t: Tour, frames: seq<Frame>, n: nat)
    requires n <= |frames|
    ensures SeeingFrames(t, frames, n).read == t.read && SeeingFrames(t, frames, n).left == t.left
  {
    hide FieldVisits, HungFields;
    if n > 0 {
      FramesReadNothing(t, frames, n - 1);
    }
  }

  /** Every snapshot, from whatever registry, follows the tour of its frames: it reads what the tour
      reads, boxes the keys the tour boxes, and each address leads to the last aggregate the tour
      meets there. */
  lemma ShotIsOnTour(reg: Reg, left: nat, frames: seq<Frame>, mem: Memory)
    requires RegistryOk(reg.ids, reg.counter, reg.names)
    ensures OnTour(Shoot(reg, left, frames, mem).e, StepTour(frames, left, mem))
  {
    hide Inv, Led, AfterFrames, Expand, Touring, SeeingFrames, Adds, FrameDrawn, KeysWithin;
    var g := StateOf(reg, map[]);
    var start := Tour([], {}, [], left, []);
    EmptyIsInv(reg);
    LedNowhere(map[], g.ids);
    FramesOnTour(frames, |frames|, g, start);
    FramesReadNothing(start, frames, |frames|);
    FramesDrawn(frames, |frames|, g);
    ExpandOnTour(StartOf(AfterFrames(frames, |frames|, g).0, left), SeeingFrames(start, frames, |frames|), mem, {});
  }

  /** Decided before the snapshot, from its frames, the memory and the budget alone: a pointer is
      linked to the box of what it points to if and only if that is the last aggregate that the tour
      meets at its address. */
  lemma LinkForetold(reg: Reg, left: nat, frames: seq<Frame>, mem: Memory, p: GValue)
    requires RegistryOk(reg.ids, reg.counter, reg.names) && Drawable(mem, p)
    ensures var last := Resident(StepTour(frames, left, mem).visits, p.target);
            LeadsHome(Shoot(reg, left, frames, mem).e.h, mem, p) <==>
              last.Some? && KeyOf(last.value.0) == KeyOf(Pointee(mem, p))
  {
    hide Shoot, StepTour, Resident, KeyOf, LeadsHome, StepVisits, Led;
    ShotIsOnTour(reg, left, frames, mem);
    LinkLeadsHomeIff(reg, left, frames, mem, p);
    ShotFollows(reg, left, frames, mem);
    var e := Shoot(reg, left, frames, mem).e;
    SameResident(e.h.byAddress, e.h.ids, StepVisits(frames, e.read, mem).0, StepTour(frames, left, mem).visits,
      p.target);
    ShotKeysTell(reg, left, frames, mem);
  }

  lemma SameResident(at: map<nat, Id>, ids: map<Key, Id>, xs: seq<Sight>, ys: seq<Sight>, a: nat)
    requires Led(map[], at, xs, ids) && Led(map[], at, ys, ids)
    ensures Resident(xs, a).Some? <==> Resident(ys, a).Some?
    ensures Resident(xs, a).Some? ==>
              IdOf(Resident(xs, a).value.0, ids).Some?
              && IdOf(Resident(xs, a).value.0, ids) == IdOf(Resident(ys, a).value.0, ids)
  {
    hide IdOf, Resident;
  }

  lemma ShotKeysTell(reg: Reg, left: nat, frames: seq<Frame>, mem: Memory)
    requires RegistryOk(reg.ids, reg.counter, reg.names)
    ensures var ids := Shoot(reg, left, frames, mem).e.h.ids;
            forall v, w | IdOf(v, ids).Some? && IdOf(v, ids) == IdOf(w, ids) :: KeyOf(v) == KeyOf(w)
  {
    hide Shoot, ShotDraws, Keeps, KeyOf;
    ShotIsDrawn(reg, left, frames, mem);
    RegistryOfDrawn(Shoot(reg, left, frames, mem), frames, mem);
  }
}
