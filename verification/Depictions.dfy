/**
  What a step of the gdb driver shows, told on the values alone: which values share a box, what
  each slot and each box holds cell by cell, and that two different aggregates never look like one.
  Nothing here is stated through the functions that compute keys, slots, boxes or links.
 */
module Depictions {
  import opened Numbers
  import opened Options
  import opened HeapDelta
  import opened GdbHeap
  import opened Pointers
  import opened Patching
  import opened Driver
  import opened Drawings

  // ---- which values share a box -----------------------------------------------------------

  /** A value that gets a box: an aggregate, and of the slices those with a plausible length. */
  ghost predicate Boxable(v: GValue) {
    v.Struct? || v.Array? || v.Dictionary? || (v.Slice? && v.len.Some?)
  }

  /** One box for both: same kind and type; structs and arrays also at the same address, slices
      and maps also with the same data, where two null ones must be the same variable, and
      slices of a fixed length also with the same length. */
  ghost predicate SameBox(v: GValue, w: GValue) {
    match (v, w)
    case (Struct(a, t, _), Struct(b, u, _)) => a == b && t == u
    case (Array(a, t, _), Array(b, u, _)) => a == b && t == u
    case (Dictionary(a, t, d, _), Dictionary(b, u, e, _)) => t == u && d == e && (d == 0 ==> a == b)
    case (Slice(a, t, dyn, d, n, _), Slice(b, u, dyn', e, m, _)) =>
      t == u && d == e && dyn == dyn' && (d == 0 ==> a == b) && (!dyn ==> n == m)
    case _ => false
  }

  /** Of any two values of any kinds. */
  lemma KeysTell(v: GValue, w: GValue)
    ensures KeyOf(v).Some? <==> Boxable(v)
    ensures Boxable(v) && Boxable(w) ==> (KeyOf(v) == KeyOf(w) <==> SameBox(v, w))
  {
  }

  /** In a step with room, two aggregates are drawn as the same reference exactly when they share
      a box. */
  lemma SameSlotIff(v: GValue, d: nat, w: GValue, d': nat, h: HeapState)
    requires Inv(h, {}) && |h.used| < 200 && d < 4 && d' < 4 && Boxable(v) && Boxable(w)
    requires SlotSettled(v, d, h) && SlotSettled(w, d', h)
    ensures var x, y := SlotG(v, d, h.used, h.ids), SlotG(w, d', h.used, h.ids);
            x.RefSlot? && y.RefSlot? && (x == y <==> SameBox(v, w))
  {
    hide DrawnOk, OriginOk, QueueOk, SameBox;
    KeysTell(v, w);
    KeysTell(w, v);
    KeysRegistered(h, {});
  }

  /** The same for one value drawn after the other. */
  lemma DrawnInTurn(v: GValue, d: nat, w: GValue, d': nat, g: HeapState)
    requires Inv(g, {}) && d < 4 && d' < 4 && Boxable(v) && Boxable(w)
    ensures var (h, x) := AfterValue(v, d, g); var (h', y) := AfterValue(w, d', h);
            |h'.used| < 200 ==> x.RefSlot? && y.RefSlot? && (x == y <==> SameBox(v, w))
  {
    hide Inv, AfterValue, SlotSettled, SlotG, Adds, SameBox, Boxable;
    var (h, x) := AfterValue(v, d, g);
    var (h', y) := AfterValue(w, d', h);
    ValueDrawn(v, d, g, {});
    ValueDrawn(w, d', h, {});
    InvUsed(h);
    SettledStays(v, d, h, h');
    if |h'.used| < 200 {
      SameSlotIff(v, d, w, d', h');
    }
  }

  lemma InvUsed(h: HeapState)
    requires Inv(h, {})
    ensures UsedOk(h)
  {
  }

  // ---- slots and boxes, cell by cell ------------------------------------------------------

  /** A reference to a box, and to one drawn in this step only if its value shares it; no reference
      only in a step that is full. */
  ghost predicate ShowsAggregate(x: GSlot, v: GValue, h: HeapState) {
    match x
    case RefSlot(r) => r in h.boxes && (r in h.origin ==> SameBox(h.origin[r].0, v))
    case _ => x == OpaqueSlot("object limit") && |h.used| == 200
  }

  /** The slot shows the value at that depth; `links` are the boxes by address. */
  ghost predicate ShowsSlot(x: GSlot, v: GValue, depth: nat, h: HeapState, links: map<nat, Id>) {
    match v
    case Scalar(ty, text) => x == PrimSlot(ty, text)
    case Pointer(target, _) =>
      if target != 0 && target in links then x == RefSlot(links[target]) else x == PtrSlot(target)
    case Text(text) => x == if depth >= 4 then OpaqueSlot("depth") else PrimSlot("string", text)
    case Other(reason) => x == if depth >= 4 then OpaqueSlot("depth") else OpaqueSlot(reason)
    case _ =>
      if depth >= 4 then x == OpaqueSlot("depth")
      else if Boxable(v) then ShowsAggregate(x, v, h)
      else x == OpaqueSlot("invalid length")
  }

  ghost predicate ShowsPart(x: GSlot, c: Option<GValue>, depth: nat, h: HeapState, links: map<nat, Id>) {
    if c.Some? then ShowsSlot(x, c.value, depth, h, links) else x == OpaqueSlot("unreadable")
  }

  /** Of the first `n` parts, `i` is the last with that name. */
  ghost predicate LastPart(k: string, i: int, fs: Frame, n: nat) {
    0 <= i < n <= |fs| && fs[i].0 == Some(k) && forall j | i < j < n :: fs[j].0 != Some(k)
  }

  /** The names of the first `n` parts, each with the part last given to it. */
  ghost predicate ShowsParts(out: map<string, GSlot>, fs: Frame, n: nat, depth: nat, h: HeapState,
                             links: map<nat, Id>) {
    && n <= |fs|
    && (forall i | 0 <= i < n && fs[i].0.Some? :: fs[i].0.value in out)
    && forall k | k in out :: exists i :: LastPart(k, i, fs, n) && ShowsPart(out[k], fs[i].1, depth, h, links)
  }

  ghost predicate ShowsItems(items: seq<GSlot>, cells: seq<Option<GValue>>, n: nat, depth: nat, h: HeapState,
                             links: map<nat, Id>) {
    |items| == n && forall i | 0 <= i < n ::
      ShowsPart(items[i], if i < |cells| then cells[i] else None, depth, h, links)
  }

  /** The box is the drawing of the value. */
  ghost predicate ShowsBox(b: GBox, v: GValue, depth: nat, h: HeapState, links: map<nat, Id>) {
    match v
    case Struct(_, ty, fields) =>
      && b.ObjectBox? && b.cls == ty && (b.truncated <==> |fields| > 30)
      && ShowsParts(b.fields, fields, Min(30, |fields|), depth + 1, h, links)
    case Array(_, _, cells) =>
      && b.ListBox? && b.kind == None && (b.truncated <==> |cells| > 30)
      && ShowsItems(b.items, cells, Min(30, |cells|), depth + 1, h, links)
    case Slice(_, ty, _, _, len, cells) =>
      && b.ListBox? && b.kind == Some(ty) && len.Some? && (b.truncated <==> len.value > 30)
      && ShowsItems(b.items, cells, Min(30, len.value), depth + 1, h, links)
    case Dictionary(_, ty, _, lenText) => b == ObjectBox(ty, map["len" := PrimSlot("int", lenText)], true)
    case _ => false
  }

  lemma SlotShows(v: GValue, depth: nat, h: HeapState, links: map<nat, Id>)
    requires Inv(h, {}) && SlotSettled(v, depth, h)
    ensures ShowsSlot(LinkSlot(SlotG(v, depth, h.used, h.ids), links), v, depth, h, links)
  {
    hide DrawnOk, QueueOk, SameBox;
    KeysTell(v, v);
    KeysRegistered(h, {});
    if KeyOf(v).Some? && KeyOf(v).value in h.used {
      var r := h.ids[KeyOf(v).value];
      assert r in h.boxes;
      if r in h.origin {
        assert OriginOk(h, r);
        KeysTell(h.origin[r].0, v);
      }
    }
  }

  lemma PartShows(c: Option<GValue>, depth: nat, h: HeapState, links: map<nat, Id>)
    requires Inv(h, {}) && (c.Some? ==> SlotSettled(c.value, depth, h))
    ensures ShowsPart(LinkSlot(CellG(c, depth, h.used, h.ids), links), c, depth, h, links)
  {
    hide Inv, SlotSettled, SlotG, ShowsSlot;
    if c.Some? {
      SlotShows(c.value, depth, h, links);
    }
  }

  lemma {:induction false} ItemsShow(cells: seq<Option<GValue>>, n: nat, depth: nat, h: HeapState, links: map<nat, Id>)
    requires Inv(h, {}) && CellsSettled(cells, n, depth, h)
    ensures ShowsItems(LinkSlots(CellsG(cells, n, depth, h.used, h.ids), links), cells, n, depth, h, links)
  {
    hide Inv, SlotSettled, CellG, ShowsPart, LinkSlot;
    if n > 0 {
      ItemsShow(cells, n - 1, depth, h, links);
      PartShows(CellAt(cells, n - 1), depth, h, links);
      hide CellsSettled;
      OneMoreItem(CellsG(cells, n - 1, depth, h.used, h.ids), CellG(CellAt(cells, n - 1), depth, h.used, h.ids),
                  cells, n, depth, h, links);
    }
  }

  lemma OneMoreItem(xs: seq<GSlot>, x: GSlot, cells: seq<Option<GValue>>, n: nat, depth: nat, h: HeapState,
                    links: map<nat, Id>)
    requires n > 0 && ShowsItems(LinkSlots(xs, links), cells, n - 1, depth, h, links)
    requires ShowsPart(LinkSlot(x, links), CellAt(cells, n - 1), depth, h, links)
    ensures ShowsItems(LinkSlots(xs + [x], links), cells, n, depth, h, links)
  {
    hide ShowsPart, LinkSlot;
    assert forall i | 0 <= i < |xs| :: (xs + [x])[i] == xs[i];
  }

  lemma {:induction false} PartsShow(fs: Frame, n: nat, depth: nat, h: HeapState, links: map<nat, Id>)
    requires n <= |fs| && Inv(h, {}) && FieldsSettled(fs, n, depth, h)
    ensures ShowsParts(LinkMap(FieldsG(fs, n, depth, h.used, h.ids), links), fs, n, depth, h, links)
  {
    hide Inv, SlotSettled, CellG, ShowsPart, LinkSlot, LastPart, ShowsParts;
    if n == 0 {
      assert ShowsParts(map[], fs, 0, depth, h, links) by {
        NoParts(fs, depth, h, links);
      }
      assert LinkMap(map[], links) == map[];
    } else {
      PartsShow(fs, n - 1, depth, h, links);
      var rest := FieldsG(fs, n - 1, depth, h.used, h.ids);
      if fs[n - 1].0.Some? {
        PartShows(fs[n - 1].1, depth, h, links);
        var slot := CellG(fs[n - 1].1, depth, h.used, h.ids);
        assert LinkMap(rest[fs[n - 1].0.value := slot], links)
            == LinkMap(rest, links)[fs[n - 1].0.value := LinkSlot(slot, links)];
        OneMorePart(LinkMap(rest, links), fs, n, LinkSlot(slot, links), depth, h, links);
      } else {
        OneMorePart(LinkMap(rest, links), fs, n, OpaqueSlot(""), depth, h, links);
      }
    }
  }

  lemma NoParts(fs: Frame, depth: nat, h: HeapState, links: map<nat, Id>)
    ensures ShowsParts(map[], fs, 0, depth, h, links)
  {
  }

  lemma OneMorePart(out: map<string, GSlot>, fs: Frame, n: nat, slot: GSlot, depth: nat, h: HeapState,
                    links: map<nat, Id>)
    requires 0 < n <= |fs| && ShowsParts(out, fs, n - 1, depth, h, links)
    requires fs[n - 1].0.Some? ==> ShowsPart(slot, fs[n - 1].1, depth, h, links)
    ensures ShowsParts(if fs[n - 1].0.None? then out else out[fs[n - 1].0.value := slot], fs, n, depth, h, links)
  {
    hide ShowsPart;
    var more := if fs[n - 1].0.None? then out else out[fs[n - 1].0.value := slot];
    forall k | k in more ensures exists i :: LastPart(k, i, fs, n) && ShowsPart(more[k], fs[i].1, depth, h, links) {
      if fs[n - 1].0 == Some(k) {
        assert LastPart(k, n - 1, fs, n);
      } else {
        var i :| LastPart(k, i, fs, n - 1) && ShowsPart(out[k], fs[i].1, depth, h, links);
        assert LastPart(k, i, fs, n);
      }
    }
  }

  lemma BoxShows(v: GValue, depth: nat, h: HeapState, links: map<nat, Id>)
    requires Inv(h, {}) && KeyOf(v).Some? && BoxSettled(v, depth, h)
    ensures ShowsBox(LinkBox(BoxG(v, depth, h.used, h.ids), links), v, depth, h, links)
  {
    hide Inv, CellsSettled, FieldsSettled, ShowsItems, ShowsParts, LinkSlots, LinkMap, CellsG, FieldsG;
    match v
    case Struct(_, _, fields) => PartsShow(fields, Drawn(v), depth + 1, h, links);
    case Array(_, _, cells) => ItemsShow(cells, Drawn(v), depth + 1, h, links);
    case Slice(_, _, _, _, _, cells) => ItemsShow(cells, Drawn(v), depth + 1, h, links);
    case Dictionary(_, _, _, _) => LengthIsKept(v.lenText, links);
  }

  lemma LengthIsKept(text: string, links: map<nat, Id>)
    ensures LinkMap(map["len" := PrimSlot("int", text)], links) == map["len" := PrimSlot("int", text)]
  {
  }

  // ---- addresses ------------------------------------------------------------------------------

  /** A value whose address leads to its box: a map's own address does not, nor does nil. */
  ghost predicate LivesAt(v: GValue, a: nat) {
    (v.Struct? || v.Array? || v.Slice?) && v.addr == Some(a) && a != 0
  }

  lemma SelfAddrTells(v: GValue, a: nat)
    requires a != 0
    ensures SelfAddr(v) == a <==> LivesAt(v, a)
  {
  }

  /** What a pointer must be to have what it leads to drawn: not nil, declared to lead to an
      aggregate, and what is read there gets a box and lives there. */
  lemma DrawableMeans(mem: Memory, p: GValue)
    ensures Drawable(mem, p) <==>
              && p.Pointer? && p.target != 0 && p.pointee.Some? && (p.target, p.pointee.value) in mem
              && var w := mem[(p.target, p.pointee.value)];
                 Boxable(w) && LivesAt(w, p.target)
  {
  }

  /** Drawing a value that gets a reference records its address. */
  lemma DrawnLivesThere(v: GValue, depth: nat, g: HeapState, a: nat)
    requires Inv(g, {})
    ensures var (h, slot) := AfterValue(v, depth, g);
            slot.RefSlot? && LivesAt(v, a) ==> a in h.byAddress && h.byAddress[a] in h.boxes
  {
    hide Inv, AfterValue, SlotSettled, SlotG, Adds;
    ValueDrawn(v, depth, g, {});
    AddressesHaveBoxes(AfterValue(v, depth, g).0);
  }

  lemma AddressesHaveBoxes(h: HeapState)
    requires Inv(h, {})
    ensures forall a | a in h.byAddress :: h.byAddress[a] in h.boxes
  {
  }

  // ---- a snapshot and a returned value -------------------------------------------------------

  /** Every box drawn in the step shows the value it was drawn from, and no two of those values
      share a box. */
  ghost predicate BoxesShow(boxes: Boxes, h: HeapState) {
    && (forall r | r in h.origin :: r in boxes && ShowsBox(boxes[r], h.origin[r].0, h.origin[r].1, h, h.byAddress))
    && forall r, s | r in h.origin && s in h.origin && SameBox(h.origin[r].0, h.origin[s].0) :: r == s
  }

  lemma DrawnBoxesShow(h: HeapState)
    requires Inv(h, {})
    ensures BoxesShow(LinkBoxes(h.boxes, h.byAddress), h)
  {
    hide ShowsBox, BoxG, LinkBox, BoxSettled, SameBox;
    forall r | r in h.origin ensures r in h.boxes
      && ShowsBox(LinkBox(h.boxes[r], h.byAddress), h.origin[r].0, h.origin[r].1, h, h.byAddress)
    {
      assert DrawnOk(h, r);
      BoxShows(h.origin[r].0, h.origin[r].1, h, h.byAddress);
    }
    forall r, s | r in h.origin && s in h.origin && SameBox(h.origin[r].0, h.origin[s].0) ensures r == s {
      assert OriginOk(h, r) && OriginOk(h, s);
      KeysTell(h.origin[r].0, h.origin[s].0);
      KeysTell(h.origin[s].0, h.origin[r].0);
    }
  }

  /** What a snapshot shows, for every registry, memory, budget and frames. */
  lemma ShotShows(reg: Reg, left: nat, frames: seq<Frame>, mem: Memory)
    requires RegistryOk(reg.ids, reg.counter, reg.names)
    ensures var shot := Shoot(reg, left, frames, mem); var h := shot.e.h;
            && shot.boxes.Keys == h.origin.Keys && BoxesShow(shot.boxes, h)
            && forall i | 0 <= i < |frames| ::
                 ShowsParts(shot.vars[i], frames[i], |frames[i]|, 0, h, h.byAddress)
  {
    hide Inv, FieldsSettled, FieldsG, LinkMap, LinkBox, Shoot, BoxesShow, ShowsParts, AllResolved, ReadsExactly,
         ReadsDrawn, TurnsMet, Rests, Keeps;
    ShotIsDrawn(reg, left, frames, mem);
    var shot := Shoot(reg, left, frames, mem);
    OwnBoxes(shot.e.h);
    DrawnBoxesShow(shot.e.h);
    forall i | 0 <= i < |frames| ensures ShowsParts(shot.vars[i], frames[i], |frames[i]|, 0, shot.e.h,
      shot.e.h.byAddress) {
      PartsShow(frames[i], |frames[i]|, 0, shot.e.h, shot.e.h.byAddress);
    }
  }

  /** In a snapshot with room, two variables that hold aggregates show the same reference exactly
      when the aggregates share a box. */
  lemma VariablesShareIff(reg: Reg, left: nat, frames: seq<Frame>, mem: Memory,
                          i: nat, a: nat, k: string, j: nat, b: nat, m: string)
    requires RegistryOk(reg.ids, reg.counter, reg.names) && i < |frames| && j < |frames|
    requires LastPart(k, a, frames[i], |frames[i]|) && frames[i][a].1.Some? && Boxable(frames[i][a].1.value)
    requires LastPart(m, b, frames[j], |frames[j]|) && frames[j][b].1.Some? && Boxable(frames[j][b].1.value)
    requires |Shoot(reg, left, frames, mem).e.h.used| < 200
    ensures var vars := Shoot(reg, left, frames, mem).vars;
            && k in vars[i] && m in vars[j] && vars[i][k].RefSlot? && vars[j][m].RefSlot?
            && (vars[i][k] == vars[j][m] <==> SameBox(frames[i][a].1.value, frames[j][b].1.value))
  {
    hide Inv, LinkMap, Shoot, SlotSettled, SlotG, SameBox, Boxable, AllResolved, ReadsExactly, ReadsDrawn, TurnsMet,
         Rests, Keeps, LinkBox, FieldsG;
    ShotIsDrawn(reg, left, frames, mem);
    var h := Shoot(reg, left, frames, mem).e.h;
    var v, w := frames[i][a].1.value, frames[j][b].1.value;
    SameSlotIff(v, 0, w, 0, h);
    VariableIs(frames[i], |frames[i]|, a, k, h);
    VariableIs(frames[j], |frames[j]|, b, m, h);
  }

  lemma {:induction false} VariableIs(fs: Frame, n: nat, i: nat, k: string, h: HeapState)
    requires LastPart(k, i, fs, n) && fs[i].1.Some? && SlotG(fs[i].1.value, 0, h.used, h.ids).RefSlot?
    ensures var m := LinkMap(FieldsG(fs, n, 0, h.used, h.ids), h.byAddress);
            k in m && m[k] == SlotG(fs[i].1.value, 0, h.used, h.ids)
    decreases n
  {
    hide SlotG;
    if i < n - 1 {
      VariableIs(fs, n - 1, i, k, h);
    }
  }

  /** What adding a returned value shows: its slot, and every box it adds. */
  lemma NoteShows(reg: Reg, left: nat, before: Boxes, returned: GValue, mem: Memory)
    requires Fits(reg, before)
    ensures var note := Annotated(reg, left, before, returned, mem); var h := note.e.h;
            && note.after.Keys == before.Keys + h.origin.Keys && BoxesShow(note.after, h)
            && ShowsSlot(note.slot, returned, 0, h, h.byAddress)
  {
    hide Fits, Inv, SlotSettled, SlotG, LinkBox, Annotated, BoxesShow, AllResolved, ReadsExactly, ReadsDrawn, TurnsMet,
         Rests, Keeps, ShowsSlot, LinkSlot;
    NoteIsDrawn(reg, left, before, returned, mem);
    var h := Annotated(reg, left, before, returned, mem).e.h;
    SlotShows(returned, 0, h, h.byAddress);
    DrawnBoxesShow(h);
    BoxesAre(h);
  }

  lemma BoxesAre(h: HeapState)
    requires Inv(h, {})
    ensures h.boxes.Keys == h.base + h.origin.Keys
  {
  }
}
