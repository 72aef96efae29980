/**
  One breadth-first walk of the object graph: `_remap_id`, `_value_ref`,
  `_expand_function`, `_expand_object`, `_drain_heap`.

  The walk mutates four containers: the address-to-id map (kept for the whole trace,
  with its counter), the heap of this step (a slot is `None` while it waits to be
  expanded) and the queue.  `WalkState` is their value; the ghost part records which
  objects the step has touched, which of them a variable names directly, and what
  every id ever handed out names.
 */
module Walk {
  import opened Numbers
  import opened Options
  import opened HeapDelta
  import opened PyGraph

  /** What each id ever handed out names: an address and the type found there. */
  type Names = map<Id, (Addr, string)>

  datatype WalkState = WalkState(
    idmap: IdMap,
    counter: Id,
    heap: map<Id, Option<Box>>,
    queue: seq<(Id, Addr)>,
    names: Names,
    touched: set<Addr>,
    roots: set<Addr>)

  // ---- invariant of the walk ---------------------------------------------------

  /** Ids come from the counter and name one (address, type) each. */
  ghost predicate IdsOk(idmap: IdMap, counter: Id, names: Names) {
    && (forall r :: r in names <==> 1 <= r <= counter)
    && (forall a | a in idmap :: idmap[a].0 in names && names[idmap[a].0] == (a, idmap[a].1))
  }

  ghost predicate TouchedOk(s: Store, w: WalkState) {
    && w.touched <= s.Keys
    && forall a | a in w.touched :: a in w.idmap && w.idmap[a].1 == s[a].typeName && Reachable(s, w.roots, a)
  }

  ghost predicate SlotOk(s: Store, w: WalkState, r: Id)
    requires r in w.heap
  {
    && r in w.names
    && var a := w.names[r].0;
       && a in w.touched && a in s && a in w.idmap && w.idmap[a].0 == r
       && (w.heap[r].Some? ==> ShownAddrs(s[a]) <= w.touched && w.heap[r].value == Draw(s[a], w.idmap))
  }

  ghost predicate HeapOk(s: Store, w: WalkState) {
    && |w.heap| <= MAX_HEAP_OBJECTS
    && (forall r | r in w.heap :: SlotOk(s, w, r))
    && (forall a | a in w.touched && a in w.idmap :: w.idmap[a].0 in w.heap || |w.heap| == MAX_HEAP_OBJECTS)
  }

  ghost predicate Queued(q: seq<(Id, Addr)>, r: Id) {
    exists i :: 0 <= i < |q| && q[i].0 == r
  }

  /** Every reserved slot waits in the queue, except those in `open` (being expanded). */
  ghost predicate QueueOk(w: WalkState, open: set<Id>) {
    && (forall i | 0 <= i < |w.queue| ::
          w.queue[i].0 in w.heap && w.queue[i].0 in w.names && w.names[w.queue[i].0].0 == w.queue[i].1)
    && forall r | r in w.heap && w.heap[r].None? :: r in open || Queued(w.queue, r)
  }

  ghost predicate Inv(s: Store, w: WalkState, open: set<Id>) {
    Closed(s) && IdsOk(w.idmap, w.counter, w.names) && TouchedOk(s, w) && HeapOk(s, w) && QueueOk(w, open)
  }

  /** The invariant, except that `a` may lack the slot it is owed. */
  ghost predicate InvBut(s: Store, w: WalkState, a: Addr, open: set<Id>) {
    && Closed(s) && IdsOk(w.idmap, w.counter, w.names) && TouchedOk(s, w) && QueueOk(w, open)
    && |w.heap| <= MAX_HEAP_OBJECTS
    && (forall r | r in w.heap :: SlotOk(s, w, r))
    && (forall b | b in w.touched && b in w.idmap && b != a :: w.idmap[b].0 in w.heap || |w.heap| == MAX_HEAP_OBJECTS)
  }

  /** Objects that may be serialized: live, and reachable from the roots so far. */
  ghost predicate AllLive(s: Store, roots: set<Addr>, on: set<Addr>) {
    forall b | b in on :: b in s && Reachable(s, roots, b)
  }

  /** The effect of `_remap_id`. */
  ghost predicate Remapped(u: WalkState, w: WalkState, a: Addr, kind: string) {
    var hit := a in u.idmap && u.idmap[a].1 == kind;
    var rid := if hit then u.idmap[a].0 else u.counter + 1;
    && w.idmap == (if hit then u.idmap else u.idmap[a := (rid, kind)])
    && w.counter == (if hit then u.counter else rid)
    && w.names == (if hit then u.names else u.names[rid := (a, kind)])
    && w.touched == u.touched + {a} && w.roots == u.roots && w.heap == u.heap && w.queue == u.queue
  }

  /** What serializing any number of values does to the walk. */
  ghost predicate Advances(u: WalkState, w: WalkState) {
    && u.touched <= w.touched
    && u.roots == w.roots
    && u.counter <= w.counter
    && (forall r | r in u.names :: r in w.names && w.names[r] == u.names[r])
    && (forall r | r in w.names && r !in u.names :: r > u.counter)
    && Agree(u.idmap, w.idmap, u.touched)
    && (forall r | r in u.heap :: r in w.heap && w.heap[r] == u.heap[r])
    && |u.heap| <= |w.heap|
    && |w.queue| - |u.queue| == |w.heap| - |u.heap|
    && u.queue <= w.queue
    && KeepsIds(u, w)
  }

  /** An id survives as long as the type found at its address does. */
  ghost predicate KeepsIds(u: WalkState, w: WalkState) {
    && (forall a | a in u.idmap :: a in w.idmap)
    && (forall a | a in u.idmap && a in w.idmap :: u.idmap[a].1 == w.idmap[a].1 ==> w.idmap[a] == u.idmap[a])
    && (forall a | a in w.idmap && (a !in u.idmap || w.idmap[a] != u.idmap[a]) ::
          a in w.touched - u.touched && w.idmap[a].0 > u.counter)
  }

  lemma AdvancesTransitive(u: WalkState, v: WalkState, w: WalkState)
    requires Advances(u, v) && Advances(v, w)
    ensures Advances(u, w)
  {
    forall a | a in w.idmap && (a !in u.idmap || w.idmap[a] != u.idmap[a])
      ensures a in w.touched - u.touched && w.idmap[a].0 > u.counter
    {
      if a in v.idmap && v.idmap[a] == w.idmap[a] {
        assert a in v.touched - u.touched;
      } else {
        assert a in w.touched - v.touched;
        assert a !in u.touched;
      }
    }
    forall a | a in u.idmap && a in w.idmap && u.idmap[a].1 == w.idmap[a].1
      ensures w.idmap[a] == u.idmap[a]
    {
      if a in u.touched {
      }
    }
  }

  // ---- the walk ----------------------------------------------------------------

  class Walker {
    var idmap: IdMap
    var counter: Id
    var heap: map<Id, Option<Box>>
    var queue: seq<(Id, Addr)>
    ghost var names: Names
    ghost var touched: set<Addr>
    ghost var roots: set<Addr>

    ghost function St(): WalkState
      reads this
    {
      WalkState(idmap, counter, heap, queue, names, touched, roots)
    }

    /** The walk of one step starts from the trace's id map, an empty heap and queue. */
    constructor (idmap: IdMap, counter: Id, ghost names: Names)
      ensures St() == WalkState(idmap, counter, map[], [], names, {}, {})
    {
      this.idmap, this.counter := idmap, counter;
      heap, queue := map[], [];
      this.names, touched, roots := names, {}, {};
    }

    /** `_remap_id`: the stored id when the same type is still at that address, else a
        new one from the counter. */
    method RemapId(at: Addr, kind: string) returns (rid: Id)
      modifies this`idmap, this`counter, this`names, this`touched
      ensures Remapped(old(St()), St(), at, kind)
      ensures at in idmap && rid == idmap[at].0 && idmap[at].1 == kind
    {
      touched := touched + {at};
      if at in idmap && idmap[at].1 == kind {
        return idmap[at].0;
      }
      counter := counter + 1;
      rid := counter;
      idmap := idmap[at := (rid, kind)];
      names := names[rid := (at, kind)];
    }

    /** `_value_ref`: an inline primitive, or a reference to a box reserved for the object. */
    method ValueRef(s: Store, v: Value, ghost open: set<Id>) returns (slot: Slot)
      requires Inv(s, St(), open)
      requires v.Obj? ==> v.addr in s && Reachable(s, roots, v.addr)
      modifies this
      ensures Inv(s, St(), open) && Advances(old(St()), St())
      ensures touched == old(touched) + AddrsOf(v)
      ensures slot == SlotOf(v, idmap)
    {
      hide InvBut, Inv, Advances, Reachable;
      ghost var u := St();
      if v.Prim? {
        AdvancesReflexive(s, u, open);
        return PrimSlot(v.kind, v.text);
      }
      var a := v.addr;
      var rid := RemapId(a, s[a].typeName);
      ghost var u1 := St();
      MintedKeepsInv(s, u, u1, a, open);
      if rid !in heap && |heap| < MAX_HEAP_OBJECTS {
        heap := heap[rid := None];
        queue := queue + [(rid, a)];
        ReservedKeepsInv(s, u, u1, St(), a, open);
      } else {
        NothingOwed(s, u1, a, open);
      }
      return Ref(rid);
    }

    /** `_expand_object`: the typed box of an object. */
    method ExpandObject(s: Store, a: Addr, ghost open: set<Id>) returns (box: Box)
      requires Inv(s, St(), open) && a in touched && a in s
      modifies this
      ensures Inv(s, St(), open) && Advances(old(St()), St())
      ensures touched == old(touched) + ShownAddrs(s[a])
      ensures box == Draw(s[a], idmap)
    {
      hide Inv, Advances, Reachable, AllLive;
      ShownAreLive(s, St(), a, open);
      AdvancesReflexive(s, St(), open);
      var o := s[a];
      match o.shape
      case Sequence(kind, items) =>
        var slots, truncated := ExpandItems(s, items, open);
        box := ItemsBox(kind, slots, truncated);
      case Dict(entries) =>
        var pairs, truncated := ExpandEntries(s, entries, open);
        box := DictBox(pairs, truncated);
      case Function(name, params, names, cells) =>
        var closure := ExpandClosure(s, names, cells, open);
        box := FunctionBox(name, params[..Min(MAX_ITEMS, |params|)], closure, |names| > MAX_VARS);
      case Instance(fields) =>
        var out, truncated := ExpandFields(s, fields, open);
        box := FieldsBox(o.typeName, out, truncated);
      case Unreadable =>
        box := OpaqueBox(o.typeName);
    }

    /** The cells of a list, tuple or set. */
    method ExpandItems(s: Store, items: seq<Value>, ghost open: set<Id>) returns (slots: seq<Slot>, truncated: bool)
      requires Inv(s, St(), open)
      requires AllLive(s, roots, ItemAddrs(items[..Min(MAX_ITEMS, |items|)]))
      modifies this
      ensures Inv(s, St(), open) && Advances(old(St()), St())
      ensures touched == old(touched) + ItemAddrs(items[..Min(MAX_ITEMS, |items|)])
      ensures slots == SlotsOf(items[..Min(MAX_ITEMS, |items|)], idmap) && truncated == (|items| > MAX_ITEMS)
    {
      hide Inv, Advances, Reachable, AllLive, SlotOf, AddrsOf, SlotsOf, ItemAddrs;
      ghost var u := St();
      ghost var drawn := items[..Min(MAX_ITEMS, |items|)];
      AdvancesReflexive(s, u, open);
      slots, truncated := [], false;
      NothingDrawn(idmap);
      assert drawn[..0] == [];
      var i := 0;
      while i < |items|
        invariant i <= |drawn| && (truncated ==> i == MAX_ITEMS < |items|)
        invariant Inv(s, St(), open) && Advances(u, St()) && roots == u.roots
        invariant touched == u.touched + ItemAddrs(drawn[..i])
        invariant slots == SlotsOf(drawn[..i], idmap)
      {
        if i >= MAX_ITEMS {
          truncated := true;
          break;
        }
        ghost var v := St();
        ItemLive(s, u, drawn, i);
        var slot := ValueRef(s, items[i], open);
        ItemStep(u, v, St(), drawn, i, slot);
        slots := slots + [slot];
        i := i + 1;
      }
      assert drawn[..|drawn|] == drawn;
    }

    method PairRef(s: Store, entry: (Value, Value), ghost open: set<Id>) returns (pair: (Slot, Slot))
      requires Inv(s, St(), open)
      requires AllLive(s, roots, AddrsOf(entry.0) + AddrsOf(entry.1))
      modifies this
      ensures Inv(s, St(), open) && Advances(old(St()), St())
      ensures touched == old(touched) + AddrsOf(entry.0) + AddrsOf(entry.1)
      ensures pair == (SlotOf(entry.0, idmap), SlotOf(entry.1, idmap))
    {
      hide Inv, Advances, Reachable;
      ghost var u := St();
      var k := ValueRef(s, entry.0, open);
      ghost var v := St();
      AdvancesAgree(u, v, {});
      var val := ValueRef(s, entry.1, open);
      AdvancesAgree(v, St(), AddrsOf(entry.0));
      AdvancesTransitive(u, v, St());
      pair := (k, val);
    }

    /** The pairs of a dictionary: the key first, then its value. */
    method ExpandEntries(s: Store, entries: seq<(Value, Value)>, ghost open: set<Id>)
        returns (pairs: seq<(Slot, Slot)>, truncated: bool)
      requires Inv(s, St(), open)
      requires AllLive(s, roots, EntryAddrs(entries[..Min(MAX_ITEMS, |entries|)]))
      modifies this
      ensures Inv(s, St(), open) && Advances(old(St()), St())
      ensures touched == old(touched) + EntryAddrs(entries[..Min(MAX_ITEMS, |entries|)])
      ensures pairs == PairsOf(entries[..Min(MAX_ITEMS, |entries|)], idmap) && truncated == (|entries| > MAX_ITEMS)
    {
      hide Inv, Advances, Reachable, AllLive, SlotOf, AddrsOf, PairsOf, EntryAddrs;
      ghost var u := St();
      ghost var drawn := entries[..Min(MAX_ITEMS, |entries|)];
      AdvancesReflexive(s, u, open);
      pairs, truncated := [], false;
      NothingDrawn(idmap);
      assert drawn[..0] == [];
      var i := 0;
      while i < |entries|
        invariant i <= |drawn| && (truncated ==> i == MAX_ITEMS < |entries|)
        invariant Inv(s, St(), open) && Advances(u, St()) && roots == u.roots
        invariant touched == u.touched + EntryAddrs(drawn[..i])
        invariant pairs == PairsOf(drawn[..i], idmap)
      {
        if i >= MAX_ITEMS {
          truncated := true;
          break;
        }
        ghost var v := St();
        EntryLive(s, u, drawn, i);
        var pair := PairRef(s, entries[i], open);
        EntryStep(u, v, St(), drawn, i, pair);
        pairs := pairs + [pair];
        i := i + 1;
      }
      assert drawn[..|drawn|] == drawn;
    }

    /** The names a function captured, in the order of its cells. */
    method ExpandClosure(s: Store, names: seq<string>, cells: seq<Option<Value>>, ghost open: set<Id>)
        returns (closure: map<string, Slot>)
      requires Inv(s, St(), open)
      requires AllLive(s, roots, CellsAddrs(cells[..Min(MAX_VARS, Min(|names|, |cells|))]))
      modifies this
      ensures Inv(s, St(), open) && Advances(old(St()), St())
      ensures var n := Min(MAX_VARS, Min(|names|, |cells|));
              && touched == old(touched) + CellsAddrs(cells[..n])
              && closure == ClosureOf(names[..n], cells[..n], idmap)
    {
      hide Inv, Advances, Reachable, AllLive, SlotOf, AddrsOf, ClosureOf, CellsAddrs;
      ghost var u := St();
      ghost var n := Min(MAX_VARS, Min(|names|, |cells|));
      AdvancesReflexive(s, u, open);
      closure := map[];
      NothingDrawn(idmap);
      assert names[..0] == [] && cells[..0] == [];
      var i := 0;
      while i < |names|
        invariant i <= n
        invariant Inv(s, St(), open) && Advances(u, St()) && roots == u.roots
        invariant touched == u.touched + CellsAddrs(cells[..i])
        invariant closure == ClosureOf(names[..i], cells[..i], idmap)
      {
        if i >= MAX_VARS || i >= |cells| {
          break;
        }
        ghost var v := St();
        match cells[i] {
          case None =>
            ClosureGrows(names, cells, i, idmap);
            closure := closure[names[i] := EMPTY_CELL];
          case Some(val) =>
            CellLive(s, u, cells[..n], i);
            var slot := ValueRef(s, val, open);
            CellStep(u, v, St(), names, cells, i, slot);
            closure := closure[names[i] := slot];
        }
        i := i + 1;
      }
    }

    /** The string-named attributes of an instance. */
    method ExpandFields(s: Store, fields: seq<(Option<string>, Value)>, ghost open: set<Id>)
        returns (out: map<string, Slot>, truncated: bool)
      requires Inv(s, St(), open)
      requires AllLive(s, roots, FieldAddrs(fields[..Min(MAX_VARS, |fields|)]))
      modifies this
      ensures Inv(s, St(), open) && Advances(old(St()), St())
      ensures touched == old(touched) + FieldAddrs(fields[..Min(MAX_VARS, |fields|)])
      ensures out == FieldsOf(fields[..Min(MAX_VARS, |fields|)], idmap) && truncated == (|fields| > MAX_VARS)
    {
      hide Inv, Advances, Reachable, AllLive, SlotOf, AddrsOf, FieldsOf, FieldAddrs;
      ghost var u := St();
      ghost var drawn := fields[..Min(MAX_VARS, |fields|)];
      AdvancesReflexive(s, u, open);
      out, truncated := map[], false;
      NothingDrawn(idmap);
      assert drawn[..0] == [];
      var i := 0;
      while i < |fields|
        invariant i <= |drawn| && (truncated ==> i == MAX_VARS < |fields|)
        invariant Inv(s, St(), open) && Advances(u, St()) && roots == u.roots
        invariant touched == u.touched + FieldAddrs(drawn[..i])
        invariant out == FieldsOf(drawn[..i], idmap)
        decreases |fields| - i
      {
        if i >= MAX_VARS {
          truncated := true;
          break;
        }
        ghost var v := St();
        var (name, val) := fields[i];
        i := i + 1;
        if name.None? {
          FieldsGrow(drawn, i - 1, idmap);
          continue;
        }
        FieldLive(s, u, drawn, i - 1);
        var slot := ValueRef(s, val, open);
        FieldStep(u, v, St(), drawn, i - 1, slot);
        out := out[name.value := slot];
      }
      assert drawn[..|drawn|] == drawn;
    }

    /** `_drain_heap`.  The loop ends on every graph: a turn either reserves slots, and
        there are at most MAX_HEAP_OBJECTS of them, or shortens the queue.  Every
        reserved slot is filled, so the closing deletion removes nothing. */
    method DrainHeap(s: Store)
      requires Inv(s, St(), {})
      modifies this
      ensures Inv(s, St(), {}) && queue == []
      ensures forall r | r in heap :: heap[r].Some?
      ensures Drains(old(St()), St())
    {
      hide Inv, Drains, Advances, SlotOk;
      ghost var u := St();
      DrainsReflexive(s, u);
      while queue != []
        invariant Inv(s, St(), {}) && Drains(u, St()) && |heap| <= MAX_HEAP_OBJECTS
        decreases MAX_HEAP_OBJECTS - |heap|, |queue|
      {
        ghost var v := St();
        PopIsSafe(s, v);
        var (rid, obj) := queue[0];
        queue := queue[1..];
        PoppedKeepsInv(s, v, St(), {rid});
        if heap[rid].Some? {
          PoppedKeepsInv(s, v, St(), {});
          DrainsStep(s, u, v, St());
          continue;
        }
        ghost var v1 := St();
        var box := ExpandObject(s, obj, {rid});
        ghost var v2 := St();
        ExpandedSlot(s, v, v1, v2, rid, obj);
        heap := heap[rid := Some(box)];
        FilledKeepsInv(s, v2, St(), rid, box);
        FilledDrains(s, u, v, v1, v2, St(), rid);
      }
      NothingWaits(s, St());
      var waiting := set r | r in heap && heap[r].None?;
      assert waiting == {};
      heap := heap - waiting;
    }
  }

  /** What draining the queue does to the walk. */
  ghost predicate Drains(u: WalkState, w: WalkState) {
    && u.touched <= w.touched && u.roots == w.roots
    && Agree(u.idmap, w.idmap, u.touched)
    && KeepsIds(u, w)
    && u.counter <= w.counter
    && Grows(u.names, w.names, u.counter)
    && forall r | r in u.heap :: r in w.heap && (u.heap[r].Some? ==> w.heap[r] == u.heap[r])
  }

  ghost predicate Grows(old_: Names, new_: Names, counter: Id) {
    && (forall r | r in old_ :: r in new_ && new_[r] == old_[r])
    && (forall r | r in new_ && r !in old_ :: r > counter)
  }

  // ---- draining ---------------------------------------------------------------------

  lemma DrainsReflexive(s: Store, u: WalkState)
    requires Inv(s, u, {})
    ensures Drains(u, u) && |u.heap| <= MAX_HEAP_OBJECTS
  {
    hide SlotOk, QueueOk, Reachable;
  }

  lemma PopIsSafe(s: Store, v: WalkState)
    requires Inv(s, v, {}) && v.queue != []
    ensures var (rid, obj) := v.queue[0]; rid in v.heap && obj in v.touched && obj in s
  {
    hide Reachable, Draw, ShownAddrs;
    assert SlotOk(s, v, v.queue[0].0);
  }

  lemma DrainsStep(s: Store, u: WalkState, v: WalkState, w: WalkState)
    requires Inv(s, v, {}) && v.queue != [] && Drains(u, v) && w == v.(queue := v.queue[1..])
    ensures Drains(u, w) && |w.heap| <= MAX_HEAP_OBJECTS
  {
    hide SlotOk, QueueOk, Reachable;
  }

  lemma NothingWaits(s: Store, w: WalkState)
    requires Inv(s, w, {}) && w.queue == []
    ensures forall r | r in w.heap :: w.heap[r].Some?
    ensures w.heap - {} == w.heap
  {
    hide SlotOk, Reachable;
    assert forall r :: !Queued(w.queue, r);
  }

  lemma ExpandedSlot(s: Store, v: WalkState, v1: WalkState, v2: WalkState, rid: Id, obj: Addr)
    requires Inv(s, v, {}) && v.queue != [] && v.queue[0] == (rid, obj)
    requires v1 == v.(queue := v.queue[1..]) && Advances(v1, v2)
    requires v2.touched == v1.touched + ShownAddrs(s[obj])
    ensures rid in v2.heap && rid in v2.names && v2.names[rid].0 == obj
    ensures obj in s && ShownAddrs(s[obj]) <= v2.touched
  {
    hide Reachable, Draw, ShownAddrs;
    assert SlotOk(s, v, rid);
  }

  lemma FilledDrains(s: Store, u: WalkState, v: WalkState, v1: WalkState, v2: WalkState, w: WalkState, rid: Id)
    requires Drains(u, v) && v.queue != [] && rid in v.heap && v.heap[rid].None?
    requires v1 == v.(queue := v.queue[1..]) && Advances(v1, v2) && rid in v2.heap
    requires w.idmap == v2.idmap && w.counter == v2.counter && w.names == v2.names
    requires w.touched == v2.touched && w.roots == v2.roots && w.queue == v2.queue
    requires w.heap.Keys == v2.heap.Keys && |w.heap| == |v2.heap|
    requires forall r | r in v2.heap && r != rid :: w.heap[r] == v2.heap[r]
    requires |w.heap| <= MAX_HEAP_OBJECTS
    ensures Drains(u, w)
    ensures |w.heap| > |v.heap| || (|w.heap| == |v.heap| && |w.queue| < |v.queue|)
  {
    KeepsIdsTransitive(u, v, v2);
  }

  // ---- the steps of the walk keep its invariant -----------------------------------

  lemma KeepsIdsTransitive(u: WalkState, v: WalkState, w: WalkState)
    requires KeepsIds(u, v) && KeepsIds(v, w) && u.touched <= v.touched <= w.touched && u.counter <= v.counter
    requires Agree(v.idmap, w.idmap, v.touched)
    ensures KeepsIds(u, w)
  {
    forall a | a in u.idmap && a in w.idmap && u.idmap[a].1 == w.idmap[a].1
      ensures w.idmap[a] == u.idmap[a]
    {
    }
    forall a | a in w.idmap && (a !in u.idmap || w.idmap[a] != u.idmap[a])
      ensures a in w.touched - u.touched && w.idmap[a].0 > u.counter
    {
      if a in v.idmap && v.idmap[a] == w.idmap[a] {
      } else {
        assert a in w.touched - v.touched;
      }
    }
  }

  lemma MintedAdvances(u: WalkState, w: WalkState, a: Addr, kind: string)
    requires IdsOk(u.idmap, u.counter, u.names) && Remapped(u, w, a, kind)
    requires forall b | b in u.touched :: b in u.idmap
    requires a in u.touched ==> u.idmap[a].1 == kind
    ensures IdsOk(w.idmap, w.counter, w.names) && Advances(u, w)
  {
    MintedIds(u, w, a, kind);
    hide Agree, KeepsIds;
    assert Agree(u.idmap, w.idmap, u.touched) && KeepsIds(u, w) by {
      MintedKeepsIds(u, w, a, kind);
    }
  }

  lemma MintedIds(u: WalkState, w: WalkState, a: Addr, kind: string)
    requires IdsOk(u.idmap, u.counter, u.names) && Remapped(u, w, a, kind)
    ensures IdsOk(w.idmap, w.counter, w.names)
  {
  }

  lemma MintedKeepsIds(u: WalkState, w: WalkState, a: Addr, kind: string)
    requires IdsOk(u.idmap, u.counter, u.names) && Remapped(u, w, a, kind)
    requires forall b | b in u.touched :: b in u.idmap
    requires a in u.touched ==> u.idmap[a].1 == kind
    ensures Agree(u.idmap, w.idmap, u.touched) && KeepsIds(u, w)
  {
  }

  /** The ids of touched objects are fixed from then on. */
  lemma AdvancesAgree(u: WalkState, w: WalkState, on: set<Addr>)
    requires Advances(u, w) && on <= u.touched
    ensures Agree(u.idmap, w.idmap, on) && u.roots == w.roots
  {
  }

  lemma ItemStep(u: WalkState, v: WalkState, w: WalkState, vs: seq<Value>, i: nat, slot: Slot)
    requires Advances(u, v) && Advances(v, w) && i < |vs|
    requires v.touched == u.touched + ItemAddrs(vs[..i]) && w.touched == v.touched + AddrsOf(vs[i])
    requires slot == SlotOf(vs[i], w.idmap)
    ensures Advances(u, w) && u.roots == w.roots
    ensures w.touched == u.touched + ItemAddrs(vs[..i + 1])
    ensures SlotsOf(vs[..i], v.idmap) + [slot] == SlotsOf(vs[..i + 1], w.idmap)
  {
    hide Advances, SlotOf;
    AdvancesAgree(v, w, ItemAddrs(vs[..i]));
    AdvancesAgree(u, v, {});
    SlotsAgree(vs[..i], v.idmap, w.idmap);
    SlotsGrow(vs, i, w.idmap);
    AdvancesTransitive(u, v, w);
  }

  lemma EntryStep(u: WalkState, v: WalkState, w: WalkState, es: seq<(Value, Value)>, i: nat, pair: (Slot, Slot))
    requires Advances(u, v) && Advances(v, w) && i < |es|
    requires v.touched == u.touched + EntryAddrs(es[..i])
    requires w.touched == v.touched + AddrsOf(es[i].0) + AddrsOf(es[i].1)
    requires pair == (SlotOf(es[i].0, w.idmap), SlotOf(es[i].1, w.idmap))
    ensures Advances(u, w) && u.roots == w.roots
    ensures w.touched == u.touched + EntryAddrs(es[..i + 1])
    ensures PairsOf(es[..i], v.idmap) + [pair] == PairsOf(es[..i + 1], w.idmap)
  {
    hide Advances, SlotOf;
    AdvancesAgree(v, w, EntryAddrs(es[..i]));
    AdvancesAgree(u, v, {});
    PairsAgree(es[..i], v.idmap, w.idmap);
    PairsGrow(es, i, w.idmap);
    AdvancesTransitive(u, v, w);
  }

  lemma CellStep(u: WalkState, v: WalkState, w: WalkState,
                 names: seq<string>, cells: seq<Option<Value>>, i: nat, slot: Slot)
    requires Advances(u, v) && Advances(v, w) && i < |names| && i < |cells| && cells[i].Some?
    requires v.touched == u.touched + CellsAddrs(cells[..i]) && w.touched == v.touched + AddrsOf(cells[i].value)
    requires slot == SlotOf(cells[i].value, w.idmap)
    ensures Advances(u, w) && u.roots == w.roots
    ensures w.touched == u.touched + CellsAddrs(cells[..i + 1])
    ensures ClosureOf(names[..i], cells[..i], v.idmap)[names[i] := slot]
            == ClosureOf(names[..i + 1], cells[..i + 1], w.idmap)
  {
    hide Advances, SlotOf;
    AdvancesAgree(v, w, CellsAddrs(cells[..i]));
    AdvancesAgree(u, v, {});
    ClosureAgree(names[..i], cells[..i], v.idmap, w.idmap);
    ClosureGrows(names, cells, i, w.idmap);
    AdvancesTransitive(u, v, w);
  }

  lemma FieldStep(u: WalkState, v: WalkState, w: WalkState, fs: seq<(Option<string>, Value)>, i: nat, slot: Slot)
    requires Advances(u, v) && Advances(v, w) && i < |fs| && fs[i].0.Some?
    requires v.touched == u.touched + FieldAddrs(fs[..i]) && w.touched == v.touched + AddrsOf(fs[i].1)
    requires slot == SlotOf(fs[i].1, w.idmap)
    ensures Advances(u, w) && u.roots == w.roots
    ensures w.touched == u.touched + FieldAddrs(fs[..i + 1])
    ensures FieldsOf(fs[..i], v.idmap)[fs[i].0.value := slot] == FieldsOf(fs[..i + 1], w.idmap)
  {
    hide Advances, SlotOf;
    AdvancesAgree(v, w, FieldAddrs(fs[..i]));
    AdvancesAgree(u, v, {});
    FieldsAgree(fs[..i], v.idmap, w.idmap);
    FieldsGrow(fs, i, w.idmap);
    AdvancesTransitive(u, v, w);
  }

  /** What an object shows is live and reachable. */
  lemma ShownAreLive(s: Store, u: WalkState, a: Addr, open: set<Id>)
    requires Inv(s, u, open) && a in u.touched && a in s
    ensures AllLive(s, u.roots, ShownAddrs(s[a]))
  {
    hide IdsOk, HeapOk, QueueOk, Draw;
    ShownWithinAll(s[a]);
    forall b | b in ShownAddrs(s[a]) ensures b in s && Reachable(s, u.roots, b) {
      EdgeReachable(s, u.roots, a, b);
    }
  }

  lemma ItemLive(s: Store, u: WalkState, vs: seq<Value>, i: nat)
    requires i < |vs| && AllLive(s, u.roots, ItemAddrs(vs))
    ensures vs[i].Obj? ==> vs[i].addr in s && Reachable(s, u.roots, vs[i].addr)
  {
    hide Reachable;
    assert vs[i] in vs;
  }

  lemma EntryLive(s: Store, u: WalkState, es: seq<(Value, Value)>, i: nat)
    requires i < |es| && AllLive(s, u.roots, EntryAddrs(es))
    ensures AllLive(s, u.roots, AddrsOf(es[i].0) + AddrsOf(es[i].1))
  {
    hide Reachable;
    assert es[i] in es;
  }

  lemma CellLive(s: Store, u: WalkState, cs: seq<Option<Value>>, i: nat)
    requires i < |cs| && cs[i].Some? && AllLive(s, u.roots, CellsAddrs(cs))
    ensures cs[i].value.Obj? ==> cs[i].value.addr in s && Reachable(s, u.roots, cs[i].value.addr)
  {
    hide Reachable;
    assert cs[i] in cs;
  }

  lemma FieldLive(s: Store, u: WalkState, fs: seq<(Option<string>, Value)>, i: nat)
    requires i < |fs| && fs[i].0.Some? && AllLive(s, u.roots, FieldAddrs(fs))
    ensures fs[i].1.Obj? ==> fs[i].1.addr in s && Reachable(s, u.roots, fs[i].1.addr)
  {
    hide Reachable;
    assert fs[i] in fs;
  }

  lemma AdvancesReflexive(s: Store, u: WalkState, open: set<Id>)
    requires Inv(s, u, open)
    ensures Advances(u, u)
  {
    hide Reachable, SlotOk, HeapOk, QueueOk;
  }

  lemma NothingOwed(s: Store, w: WalkState, a: Addr, open: set<Id>)
    requires InvBut(s, w, a, open) && a in w.idmap && (w.idmap[a].0 in w.heap || |w.heap| >= MAX_HEAP_OBJECTS)
    ensures Inv(s, w, open)
  {
    hide IdsOk, TouchedOk, QueueOk, SlotOk;
  }

  lemma MintedTouched(s: Store, u: WalkState, w: WalkState, a: Addr)
    requires TouchedOk(s, u) && Advances(u, w) && w.touched == u.touched + {a}
    requires a in s && Reachable(s, u.roots, a) && a in w.idmap && w.idmap[a].1 == s[a].typeName
    ensures TouchedOk(s, w)
  {
    hide Reachable;
  }

  /** A filled slot stays right: the ids of the objects it shows no longer change. */
  lemma SlotStays(s: Store, u: WalkState, w: WalkState, r: Id)
    requires r in u.heap && SlotOk(s, u, r) && Advances(u, w)
    ensures SlotOk(s, w, r)
  {
    hide Draw, ShownAddrs;
    if u.heap[r].Some? {
      DrawAgree(s[u.names[r].0], u.idmap, w.idmap);
    }
  }

  /** Touching `a`, with its id looked up or minted. */
  lemma MintedKeepsInv(s: Store, u: WalkState, w: WalkState, a: Addr, open: set<Id>)
    requires Inv(s, u, open)
    requires a in s && Reachable(s, u.roots, a)
    requires Remapped(u, w, a, s[a].typeName)
    ensures InvBut(s, w, a, open) && Advances(u, w)
  {
    hide SlotOk, Reachable, Advances, Queued;
    MintedAdvances(u, w, a, s[a].typeName);
    MintedTouched(s, u, w, a);
    forall r | r in w.heap ensures SlotOk(s, w, r) {
      SlotStays(s, u, w, r);
    }
    MintedHeap(s, u, w, a);
    MintedQueue(u, w, open);
    hide IdsOk, TouchedOk, QueueOk;
  }

  lemma MintedHeap(s: Store, u: WalkState, w: WalkState, a: Addr)
    requires HeapOk(s, u) && TouchedOk(s, u) && Advances(u, w) && w.touched == u.touched + {a} && w.heap == u.heap
    ensures |w.heap| <= MAX_HEAP_OBJECTS
    ensures forall b | b in w.touched && b in w.idmap && b != a ::
              w.idmap[b].0 in w.heap || |w.heap| == MAX_HEAP_OBJECTS
  {
    hide Draw, ShownAddrs, Reachable, SlotOk;
  }

  lemma MintedQueue(u: WalkState, w: WalkState, open: set<Id>)
    requires QueueOk(u, open) && Advances(u, w) && w.heap == u.heap && w.queue == u.queue
    ensures QueueOk(w, open)
  {
  }

  /** Reserving the slot of the object just touched. */
  lemma ReservedKeepsInv(s: Store, u: WalkState, v: WalkState, w: WalkState, a: Addr, open: set<Id>)
    requires InvBut(s, v, a, open) && Advances(u, v)
    requires a in v.touched && a in v.idmap && |v.heap| < MAX_HEAP_OBJECTS && v.idmap[a].0 !in v.heap
    requires w == v.(heap := v.heap[v.idmap[a].0 := None], queue := v.queue + [(v.idmap[a].0, a)])
    requires u.heap == v.heap && u.queue == v.queue
    ensures Inv(s, w, open) && Advances(u, w)
  {
    hide Draw, Reachable, ShownAddrs, AllAddrs, SlotOk, QueueOk, IdsOk, Closed, Advances;
    GrownByOne(v.heap, w.heap, v.idmap[a].0);
    ReservedAdvances(u, v, w, v.idmap[a].0, a);
    ReservedQueue(v, w, a, open);
    forall r | r in w.heap ensures SlotOk(s, w, r) {
      ReservedSlot(s, v, w, a, r);
    }
    assert TouchedOk(s, w);
  }

  lemma GrownByOne<T>(m: map<Id, T>, more: map<Id, T>, k: Id)
    requires k !in m && k in more && more == m[k := more[k]]
    ensures |more| == |m| + 1
  {
    assert more.Keys == m.Keys + {k};
    assert |more| == |more.Keys| == |m.Keys| + 1 == |m| + 1;
  }

  lemma ReservedAdvances(u: WalkState, v: WalkState, w: WalkState, rid: Id, a: Addr)
    requires Advances(u, v) && u.heap == v.heap && u.queue == v.queue && |w.heap| == |v.heap| + 1 && rid !in v.heap
    requires w == v.(heap := v.heap[rid := None], queue := v.queue + [(rid, a)])
    ensures Advances(u, w)
  {
    hide Agree;
  }

  lemma ReservedSlot(s: Store, v: WalkState, w: WalkState, a: Addr, r: Id)
    requires IdsOk(v.idmap, v.counter, v.names) && TouchedOk(s, v)
    requires a in v.touched && a in v.idmap && w.heap == v.heap[v.idmap[a].0 := None]
    requires w == v.(heap := w.heap, queue := w.queue) && r in w.heap
    requires r in v.heap ==> SlotOk(s, v, r)
    ensures SlotOk(s, w, r)
  {
    hide Draw, Reachable, ShownAddrs;
  }

  lemma ReservedQueue(v: WalkState, w: WalkState, a: Addr, open: set<Id>)
    requires QueueOk(v, open) && IdsOk(v.idmap, v.counter, v.names)
    requires a in v.idmap && v.idmap[a].0 !in v.heap
    requires w == v.(heap := v.heap[v.idmap[a].0 := None], queue := v.queue + [(v.idmap[a].0, a)])
    ensures QueueOk(w, open)
  {
    var rid := v.idmap[a].0;
    assert w.queue[|v.queue|] == (rid, a);
    forall r | r in w.heap && w.heap[r].None? ensures r in open || Queued(w.queue, r) {
      if r != rid && r !in open {
        assert Queued(v.queue, r);
        var i :| 0 <= i < |v.queue| && v.queue[i].0 == r;
        assert w.queue[i].0 == r;
      }
    }
  }

  lemma PoppedKeepsInv(s: Store, v: WalkState, w: WalkState, open: set<Id>)
    requires Inv(s, v, {}) && v.queue != []
    requires w == v.(queue := v.queue[1..])
    requires v.heap[v.queue[0].0].None? ==> v.queue[0].0 in open
    ensures Inv(s, w, open)
    ensures v.queue[0].1 in v.touched
  {
    hide Draw, Reachable, ShownAddrs, AllAddrs;
    assert SlotOk(s, v, v.queue[0].0);
    forall r | r in w.heap ensures SlotOk(s, w, r) {
      assert SlotOk(s, v, r);
    }
    forall r | r in w.heap && w.heap[r].None? ensures r in open || Queued(w.queue, r) {
      var i :| 0 <= i < |v.queue| && v.queue[i].0 == r;
      if i > 0 {
        assert w.queue[i - 1].0 == r;
      }
    }
  }

  lemma FilledKeepsInv(s: Store, v: WalkState, w: WalkState, rid: Id, box: Box)
    requires Inv(s, v, {rid}) && rid in v.heap
    requires w == v.(heap := v.heap[rid := Some(box)])
    requires rid in v.names
    requires var a := v.names[rid].0; a in s && ShownAddrs(s[a]) <= v.touched && box == Draw(s[a], v.idmap)
    ensures Inv(s, w, {})
    ensures w.heap.Keys == v.heap.Keys && |w.heap| == |v.heap| <= MAX_HEAP_OBJECTS
    ensures forall r | r in v.heap && r != rid :: w.heap[r] == v.heap[r]
  {
    hide Draw, Reachable, ShownAddrs, AllAddrs, IdsOk, Closed;
    assert w.heap.Keys == v.heap.Keys;
    assert |w.heap| == |w.heap.Keys| == |v.heap.Keys| == |v.heap|;
    forall r | r in w.heap ensures SlotOk(s, w, r) {
      FilledSlot(s, v, w, rid, box, r);
    }
    hide SlotOk;
    assert TouchedOk(s, w);
    assert QueueOk(w, {});
  }

  lemma FilledSlot(s: Store, v: WalkState, w: WalkState, rid: Id, box: Box, r: Id)
    requires rid in v.heap && w == v.(heap := v.heap[rid := Some(box)]) && r in w.heap && SlotOk(s, v, r)
    requires rid in v.names
    requires var a := v.names[rid].0; a in s && ShownAddrs(s[a]) <= v.touched && box == Draw(s[a], v.idmap)
    ensures SlotOk(s, w, r)
  {
    hide Draw, Reachable, ShownAddrs;
  }
}
