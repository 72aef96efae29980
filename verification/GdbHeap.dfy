/**
  The heap of one step of the gdb driver: `Registro`, `Heap`, `value_v2` with its
  sequence and map cases, and the keys that decide which values share a box.

  A `GValue` is what the debugger hands over: aggregates hold their parts inline, a
  pointer is an address and, when its declared target is an aggregate, that type.  `None`
  stands for a part that cannot be read.
 */
module GdbHeap {
  import opened Numbers
  import opened Options
  import opened HeapDelta

  const MAX_HEAP_OBJECTS := 200
  const MAX_POINTERS := 400     // pointers one step may queue
  const MAX_DEPTH := 4
  const MAX_FIELDS := 30
  const MAX_ITEMS := 30

  datatype GValue =
    | Scalar(ty: string, text: string)
    | Text(text: string)
    | Pointer(target: nat, pointee: Option<string>)
    | Struct(addr: Option<nat>, ty: string, fields: seq<(Option<string>, Option<GValue>)>)
    | Array(addr: Option<nat>, ty: string, cells: seq<Option<GValue>>)
    | Slice(addr: Option<nat>, ty: string, dynamic: bool, data: nat, len: Option<nat>, cells: seq<Option<GValue>>)
    | Dictionary(addr: Option<nat>, ty: string, data: nat, lenText: string)
    | Other(reason: string)

  /** A value at the depth it is drawn at. */
  type Sight = (GValue, nat)

  datatype Place = At(addr: Option<nat>) | DataAt(data: nat) | EmptyAt(self: nat)

  /** What identifies a box: the kind, the place, the type, and for a slice its length. */
  datatype Key = Key(mark: string, place: Place, ty: string, len: Option<nat>)

  datatype GSlot =
    | PrimSlot(ty: string, text: string)
    | PtrSlot(target: nat)
    | RefSlot(id: Id)
    | OpaqueSlot(reason: string)

  datatype GBox =
    | ListBox(kind: Option<string>, items: seq<GSlot>, truncated: bool)
    | ObjectBox(cls: string, fields: map<string, GSlot>, truncated: bool)

  const LIMIT := "object limit"
  const DEPTH := "depth"
  const BAD_LENGTH := "invalid length"
  const UNREADABLE := "unreadable"

  // ---- keys ------------------------------------------------------------------------

  /** `_chave`: the data pointer identifies a sequence, unless it is null; then the
      address of the value itself does. */
  function DataKey(mark: string, self: Option<nat>, data: nat, ty: string, len: Option<nat>): Key {
    Key(mark, if data == 0 && self.Some? then EmptyAt(self.value) else DataAt(data), ty, len)
  }

  function KeyOf(v: GValue): Option<Key> {
    match v
    case Struct(addr, ty, _) => Some(Key("s", At(addr), ty, None))
    case Array(addr, ty, _) => Some(Key("a", At(addr), ty, None))
    case Slice(addr, ty, dynamic, data, len, _) =>
      if len.None? then None else Some(DataKey("seq", addr, data, ty, if dynamic then None else len))
    case Dictionary(addr, ty, data, _) => Some(DataKey("map", addr, data, ty, None))
    case _ => None
  }

  /** Which sequences share a box.  Two do exactly when they have the same type and data and,
      unless they are dynamic arrays, the same length (a sub-slice is another value); growing a
      dynamic array in place keeps its box; two empty ones at two addresses are two boxes. */
  lemma SequencesSharingABox(v: GValue, w: GValue)
    requires v.Slice? && w.Slice? && v.len.Some? && w.len.Some?
    ensures KeyOf(v) == KeyOf(w) <==>
              && v.ty == w.ty && v.data == w.data && v.dynamic == w.dynamic
              && (!v.dynamic ==> v.len == w.len)
              && (v.data == 0 ==> v.addr == w.addr)
  {
  }

  /** Which structs and arrays share a box: those of one kind and type at one address, and all
      those of one kind and type that have no address. */
  lemma AggregatesSharingABox(v: GValue, w: GValue)
    requires (v.Struct? || v.Array?) && KeyOf(w).Some?
    ensures KeyOf(v) == KeyOf(w) <==>
              (v.Struct? <==> w.Struct?) && (v.Array? <==> w.Array?) && v.addr == w.addr && v.ty == w.ty
  {
  }

  /** Two maps: one box exactly when they are of one type and on the same data, and, when there is
      no data yet, are the same variable. */
  lemma MapsSharingABox(v: GValue, w: GValue)
    requires v.Dictionary? && w.Dictionary?
    ensures KeyOf(v) == KeyOf(w) <==> v.ty == w.ty && v.data == w.data && (v.data == 0 ==> v.addr == w.addr)
  {
  }

  // ---- the reference drawing ---------------------------------------------------------

  /** The drawing of one value at a nesting depth, given the keys that got a box. */
  function SlotG(v: GValue, depth: nat, used: set<Key>, ids: map<Key, Id>): GSlot {
    match v
    case Scalar(ty, text) => PrimSlot(ty, text)
    case Pointer(target, _) => PtrSlot(target)
    case _ =>
      if depth >= MAX_DEPTH then OpaqueSlot(DEPTH)
      else
        match v
        case Text(text) => PrimSlot("string", text)
        case Other(reason) => OpaqueSlot(reason)
        case _ =>
          match KeyOf(v)
          case None => OpaqueSlot(BAD_LENGTH)
          case Some(k) => if k in used && k in ids then RefSlot(ids[k]) else OpaqueSlot(LIMIT)
  }

  function CellAt(cells: seq<Option<GValue>>, i: nat): Option<GValue> {
    if i < |cells| then cells[i] else None
  }

  function CellG(c: Option<GValue>, depth: nat, used: set<Key>, ids: map<Key, Id>): GSlot {
    match c
    case None => OpaqueSlot(UNREADABLE)
    case Some(v) => SlotG(v, depth, used, ids)
  }

  function CellsG(cells: seq<Option<GValue>>, n: nat, depth: nat, used: set<Key>, ids: map<Key, Id>): seq<GSlot> {
    if n == 0 then []
    else CellsG(cells, n - 1, depth, used, ids) + [CellG(CellAt(cells, n - 1), depth, used, ids)]
  }

  function FieldsG(fs: seq<(Option<string>, Option<GValue>)>, n: nat, depth: nat, used: set<Key>, ids: map<Key, Id>)
      : map<string, GSlot>
    requires n <= |fs|
  {
    if n == 0 then map[]
    else
      var rest, (name, part) := FieldsG(fs, n - 1, depth, used, ids), fs[n - 1];
      if name.None? then rest else rest[name.value := CellG(part, depth, used, ids)]
  }

  /** How many cells of a sequence are drawn. */
  function Drawn(v: GValue): nat {
    match v
    case Struct(_, _, fields) => Min(MAX_FIELDS, |fields|)
    case Array(_, _, cells) => Min(MAX_ITEMS, |cells|)
    case Slice(_, _, _, _, len, _) => Min(MAX_ITEMS, len.GetOr(0))
    case _ => 0
  }

  function BoxG(v: GValue, depth: nat, used: set<Key>, ids: map<Key, Id>): GBox
    requires KeyOf(v).Some?
  {
    match v
    case Struct(_, ty, fields) =>
      ObjectBox(ty, FieldsG(fields, Drawn(v), depth + 1, used, ids), |fields| > MAX_FIELDS)
    case Array(_, _, cells) =>
      ListBox(None, CellsG(cells, Drawn(v), depth + 1, used, ids), |cells| > MAX_ITEMS)
    case Slice(_, ty, _, _, len, cells) =>
      ListBox(Some(ty), CellsG(cells, Drawn(v), depth + 1, used, ids), len.value > MAX_ITEMS)
    case Dictionary(_, ty, _, lenText) =>
      ObjectBox(ty, map["len" := PrimSlot("int", lenText)], true)
  }

  // ---- the state of a step -----------------------------------------------------------

  /** The containers the walk mutates, and the ghost record of it: what each id ever
      named, which value each new box was drawn from, which pointers were met, and
      whether one was dropped because the queue was full. */
  datatype HeapState = HeapState(
    ids: map<Key, Id>,
    counter: Id,
    boxes: map<Id, GBox>,
    used: set<Key>,
    truncated: bool,
    byAddress: map<nat, Id>,
    pending: seq<GValue>,
    names: map<Id, Key>,
    origin: map<Id, (GValue, nat)>,
    met: set<GValue>,
    dropped: bool,
    base: set<Id>)

  ghost predicate RegistryOk(ids: map<Key, Id>, counter: Id, names: map<Id, Key>) {
    && (forall r | r in names :: 1 <= r <= counter)
    && (forall k | k in ids :: ids[k] in names && names[ids[k]] == k)
  }

  /** A value's slot is final: its box exists or never will, and its pointer was met. */
  ghost predicate SlotSettled(v: GValue, depth: nat, h: HeapState) {
    && (depth < MAX_DEPTH && KeyOf(v).Some? ==> KeyOf(v).value in h.used || |h.used| == MAX_HEAP_OBJECTS)
    && (v.Pointer? && v.target != 0 ==> v in h.met || h.dropped)
  }

  ghost predicate CellsSettled(cells: seq<Option<GValue>>, n: nat, depth: nat, h: HeapState) {
    forall i | 0 <= i < n && i < |cells| && cells[i].Some? :: SlotSettled(cells[i].value, depth, h)
  }

  ghost predicate FieldsSettled(fs: seq<(Option<string>, Option<GValue>)>, n: nat, depth: nat, h: HeapState) {
    forall i | 0 <= i < n && i < |fs| && fs[i].0.Some? && fs[i].1.Some? :: SlotSettled(fs[i].1.value, depth, h)
  }

  ghost predicate BoxSettled(v: GValue, depth: nat, h: HeapState) {
    match v
    case Struct(_, _, fields) => FieldsSettled(fields, Drawn(v), depth + 1, h)
    case Array(_, _, cells) => CellsSettled(cells, Drawn(v), depth + 1, h)
    case Slice(_, _, _, _, _, cells) => CellsSettled(cells, Drawn(v), depth + 1, h)
    case _ => true
  }

  /** Box `r` was drawn, in this step, from a value with its key. */
  ghost predicate OriginOk(h: HeapState, r: Id)
    requires r in h.origin
  {
    var (v, depth) := h.origin[r];
    && r in h.boxes && r !in h.base
    && KeyOf(v).Some? && KeyOf(v).value in h.used && KeyOf(v).value in h.ids && h.ids[KeyOf(v).value] == r
  }

  ghost predicate DrawnOk(h: HeapState, r: Id)
    requires r in h.origin
  {
    var (v, depth) := h.origin[r];
    && KeyOf(v).Some? && BoxSettled(v, depth, h) && r in h.boxes && h.boxes[r] == BoxG(v, depth, h.used, h.ids)
  }

  ghost predicate UsedOk(h: HeapState) {
    && |h.used| <= MAX_HEAP_OBJECTS
    && h.base <= h.names.Keys
    && (forall k | k in h.used :: k in h.ids && h.ids[k] in h.base + h.origin.Keys)
    && (forall k | k in h.ids && h.ids[k] in h.base :: k in h.used)
    && h.boxes.Keys == h.base + h.origin.Keys
    && (forall r | r in h.origin :: OriginOk(h, r))
  }

  ghost predicate QueueOk(h: HeapState) {
    && (forall a | a in h.byAddress :: h.byAddress[a] in h.boxes)
    && |h.pending| <= MAX_POINTERS
    && (forall p | p in h.pending :: p in h.met)
    && (forall p | p in h.met :: p.Pointer? && p.target != 0)
  }

  /** Holds between any two operations; `open` are the boxes still being filled. */
  ghost predicate Inv(h: HeapState, open: set<Id>) {
    && RegistryOk(h.ids, h.counter, h.names) && UsedOk(h) && QueueOk(h)
    && forall r | r in h.origin && r !in open :: DrawnOk(h, r)
  }

  /** Ids, boxes and met pointers stay; once full, the set of boxed keys is final. */
  ghost predicate Keeps(g: HeapState, h: HeapState) {
    && (forall k | k in g.ids :: k in h.ids && h.ids[k] == g.ids[k])
    && g.counter <= h.counter
    && (forall r | r in g.names :: r in h.names && h.names[r] == g.names[r])
    && (forall r | r in h.names && r !in g.names :: r > g.counter)
    && g.used <= h.used && (|g.used| == MAX_HEAP_OBJECTS ==> h.used == g.used)
    && (forall r | r in g.boxes :: r in h.boxes && h.boxes[r] == g.boxes[r])
    && (forall r | r in g.origin :: r in h.origin && h.origin[r] == g.origin[r])
    && (forall a | a in g.byAddress :: a in h.byAddress)
    && g.met <= h.met
    && (g.dropped ==> h.dropped) && (g.truncated ==> h.truncated)
    && g.base == h.base
    && (forall k | k in h.ids && k !in g.ids :: k in h.used && h.ids[k] > g.counter)
  }

  /** Serializing values only adds, and queues every pointer it meets until the queue is full. */
  ghost predicate Adds(g: HeapState, h: HeapState) {
    && Keeps(g, h)
    && g.pending <= h.pending
    && (h.dropped && !g.dropped ==> |h.pending| >= MAX_POINTERS)
    && (forall p | p in h.met && p !in g.met :: p in h.pending)
  }

  lemma AddsTransitive(f: HeapState, g: HeapState, h: HeapState)
    requires Adds(f, g) && Adds(g, h)
    ensures Adds(f, h)
  {
    assert forall p | p in g.pending :: p in h.pending;
  }

  lemma SettledStays(v: GValue, depth: nat, g: HeapState, h: HeapState)
    requires SlotSettled(v, depth, g) && Adds(g, h) && UsedOk(g)
    ensures SlotSettled(v, depth, h)
    ensures SlotG(v, depth, g.used, g.ids) == SlotG(v, depth, h.used, h.ids)
  {
    hide OriginOk;
  }

  lemma {:induction false} CellsStay(cells: seq<Option<GValue>>, n: nat, depth: nat, g: HeapState, h: HeapState)
    requires CellsSettled(cells, n, depth, g) && Adds(g, h) && UsedOk(g)
    ensures CellsSettled(cells, n, depth, h)
    ensures CellsG(cells, n, depth, g.used, g.ids) == CellsG(cells, n, depth, h.used, h.ids)
  {
    hide SlotG, SlotSettled, Adds, UsedOk;
    if n > 0 {
      CellsStay(cells, n - 1, depth, g, h);
      if n - 1 < |cells| && cells[n - 1].Some? {
        SettledStays(cells[n - 1].value, depth, g, h);
      }
    }
  }

  lemma {:induction false} FieldsStay(fs: seq<(Option<string>, Option<GValue>)>, n: nat, depth: nat,
                                      g: HeapState, h: HeapState)
    requires n <= |fs| && FieldsSettled(fs, n, depth, g) && Adds(g, h) && UsedOk(g)
    ensures FieldsSettled(fs, n, depth, h)
    ensures FieldsG(fs, n, depth, g.used, g.ids) == FieldsG(fs, n, depth, h.used, h.ids)
  {
    hide SlotG, SlotSettled, Adds, UsedOk;
    if n > 0 {
      FieldsStay(fs, n - 1, depth, g, h);
      if fs[n - 1].0.Some? && fs[n - 1].1.Some? {
        SettledStays(fs[n - 1].1.value, depth, g, h);
      }
    }
  }

  lemma BoxStays(v: GValue, depth: nat, g: HeapState, h: HeapState)
    requires KeyOf(v).Some? && BoxSettled(v, depth, g) && Adds(g, h) && UsedOk(g)
    ensures BoxSettled(v, depth, h) && BoxG(v, depth, g.used, g.ids) == BoxG(v, depth, h.used, h.ids)
  {
    hide Adds, UsedOk, CellsSettled, FieldsSettled, CellsG, FieldsG;
    match v
    case Struct(_, _, fields) => FieldsStay(fields, Drawn(v), depth + 1, g, h);
    case Array(_, _, cells) => CellsStay(cells, Drawn(v), depth + 1, g, h);
    case Slice(_, _, _, _, _, cells) => CellsStay(cells, Drawn(v), depth + 1, g, h);
    case Dictionary(_, _, _, _) =>
  }

  // ---- the registry --------------------------------------------------------------------

  /** Key to dense id, for the whole trace. */
  class Registry {
    var ids: map<Key, Id>
    var counter: Id
    ghost var names: map<Id, Key>

    constructor ()
      ensures ids == map[] && counter == 0 && names == map[]
    {
      ids, counter, names := map[], 0, map[];
    }

    method IdFor(key: Key) returns (rid: Id)
      modifies this
      ensures rid == if key in old(ids) then old(ids)[key] else old(counter) + 1
      ensures ids == old(ids)[key := rid]
      ensures counter == if key in old(ids) then old(counter) else rid
      ensures names == if key in old(ids) then old(names) else old(names)[rid := key]
      // one id never names two keys
      ensures old(RegistryOk(ids, counter, names)) ==> RegistryOk(ids, counter, names)
    {
      if key in ids {
        rid := ids[key];
      } else {
        counter := counter + 1;
        rid := counter;
        ids := ids[key := rid];
        names := names[rid := key];
      }
      assert ids == old(ids)[key := rid];
    }

    /** `podar`: only what was alive in this step is kept; the counter goes on. */
    method Prune(alive: set<Key>)
      modifies this`ids
      ensures ids == map k | k in old(ids) && k in alive :: old(ids)[k]
      ensures old(RegistryOk(ids, counter, names)) ==> RegistryOk(ids, counter, names)
    {
      ids := map k | k in ids && k in alive :: ids[k];
    }
  }

  // ---- what each operation does to the state ----------------------------------------------

  function EmptyBox(v: GValue): GBox {
    if v.Struct? || v.Dictionary? then ObjectBox("", map[], false) else ListBox(None, [], false)
  }

  /** The address a boxed value is recorded under; 0 when it is not recorded. */
  function SelfAddr(v: GValue): nat {
    if v.Struct? || v.Array? || v.Slice? then v.addr.GetOr(0) else 0
  }

  function AfterHang(v: GValue, h: HeapState): HeapState {
    if |h.pending| < MAX_POINTERS then h.(pending := h.pending + [v], met := h.met + {v})
    else h.(dropped := true)
  }

  function AfterIdFor(key: Key, h: HeapState): (HeapState, Option<Id>) {
    if key in h.used then (h, if key in h.ids then Some(h.ids[key]) else None)
    else if |h.used| >= MAX_HEAP_OBJECTS then (h, None)
    else
      var hit := key in h.ids;
      var r := if hit then h.ids[key] else h.counter + 1;
      (h.(ids := h.ids[key := r],
          counter := if hit then h.counter else r,
          names := if hit then h.names else h.names[r := key],
          used := h.used + {key}),
       Some(r))
  }

  function AfterIdentify(v: GValue, key: Key, h: HeapState): (HeapState, Option<Id>) {
    var (h1, rid) := AfterIdFor(key, h);
    if rid.None? then (h1.(truncated := true), None)
    else if SelfAddr(v) == 0 then (h1, rid)
    else (h1.(byAddress := h1.byAddress[SelfAddr(v) := rid.value]), rid)
  }

  /** Serializing one value: the state it leaves and the slot it gives. */
  function AfterValue(v: GValue, depth: nat, h: HeapState): (HeapState, GSlot)
    decreases v, 3, 0
  {
    if v.Scalar? then (h, PrimSlot(v.ty, v.text))
    else if v.Pointer? then (if v.target != 0 then AfterHang(v, h) else h, PtrSlot(v.target))
    else if depth >= MAX_DEPTH then (h, OpaqueSlot(DEPTH))
    else if v.Text? then (h, PrimSlot("string", v.text))
    else if v.Other? then (h, OpaqueSlot(v.reason))
    else if KeyOf(v).None? then (h, OpaqueSlot(BAD_LENGTH))
    else AfterBox(v, KeyOf(v).value, depth, h)
  }

  function AfterBox(v: GValue, key: Key, depth: nat, h: HeapState): (HeapState, GSlot)
    requires KeyOf(v) == Some(key)
    decreases v, 2, 0
  {
    var (h1, rid) := AfterIdentify(v, key, h);
    if rid.None? then (h1, OpaqueSlot(LIMIT))
    else if rid.value in h1.boxes then (h1, RefSlot(rid.value))
    else
      var r := rid.value;
      var (h2, box) := AfterContents(v, depth, WithReserved(h1, r, v, depth));
      (h2.(boxes := h2.boxes[r := box]), RefSlot(r))
  }

  function WithReserved(h: HeapState, r: Id, v: GValue, depth: nat): HeapState {
    h.(boxes := h.boxes[r := EmptyBox(v)], origin := h.origin[r := (v, depth)])
  }

  function AfterContents(v: GValue, depth: nat, h: HeapState): (HeapState, GBox)
    requires KeyOf(v).Some?
    decreases v, 1, 0
  {
    match v
    case Struct(_, ty, fields) =>
      var (h1, drawn) := AfterFields(v, fields, Drawn(v), depth + 1, h);
      (h1, ObjectBox(ty, drawn, |fields| > MAX_FIELDS))
    case Array(_, _, cells) =>
      var (h1, items) := AfterCells(v, cells, Drawn(v), depth + 1, h);
      (h1, ListBox(None, items, |cells| > MAX_ITEMS))
    case Slice(_, ty, _, _, len, cells) =>
      var (h1, items) := AfterCells(v, cells, Drawn(v), depth + 1, h);
      (h1, ListBox(Some(ty), items, len.value > MAX_ITEMS))
    case Dictionary(_, ty, _, lenText) =>
      (h, ObjectBox(ty, map["len" := PrimSlot("int", lenText)], true))
  }

  function AfterCells(v: GValue, cells: seq<Option<GValue>>, n: nat, depth: nat, h: HeapState): (HeapState, seq<GSlot>)
    requires (v.Array? || v.Slice?) && cells == v.cells
    decreases v, 0, n
  {
    if n == 0 then (h, [])
    else
      var (h1, items) := AfterCells(v, cells, n - 1, depth, h);
      var (h2, slot) := if n - 1 < |cells| && cells[n - 1].Some? then AfterValue(cells[n - 1].value, depth, h1)
                        else (h1, OpaqueSlot(UNREADABLE));
      (h2, items + [slot])
  }

  function AfterFields(v: GValue, fs: seq<(Option<string>, Option<GValue>)>, n: nat, depth: nat, h: HeapState)
      : (HeapState, map<string, GSlot>)
    requires v.Struct? && fs == v.fields && n <= |fs|
    decreases v, 0, n
  {
    if n == 0 then (h, map[])
    else
      var (h1, drawn) := AfterFields(v, fs, n - 1, depth, h);
      var (name, part) := fs[n - 1];
      if name.None? then (h1, drawn)
      else
        var (h2, slot) := if part.Some? then AfterValue(part.value, depth, h1) else (h1, OpaqueSlot(UNREADABLE));
        (h2, drawn[name.value := slot])
  }

  // ---- the heap of one step ----------------------------------------------------------------

  class Heap {
    const registry: Registry
    var boxes: map<Id, GBox>
    var used: set<Key>
    var truncated: bool
    var byAddress: map<nat, Id>
    var pending: seq<GValue>
    ghost var origin: map<Id, (GValue, nat)>
    ghost var met: set<GValue>
    ghost var dropped: bool
    ghost const base: set<Id>

    ghost function St(): HeapState
      reads this, registry
    {
      HeapState(registry.ids, registry.counter, boxes, used, truncated, byAddress, pending,
                registry.names, origin, met, dropped, base)
    }

    /** A heap that starts from given boxes (none for a step of its own; the step's boxes
        when a returned value is added to it), counting the keys that already have one. */
    constructor (registry: Registry, boxes: map<Id, GBox>, used: set<Key>)
      ensures this.registry == registry
      ensures St() == HeapState(registry.ids, registry.counter, boxes, used, false, map[], [],
                                registry.names, map[], {}, false, boxes.Keys)
    {
      this.registry, this.boxes, this.used := registry, boxes, used;
      truncated, byAddress, pending := false, map[], [];
      origin, met, dropped, base := map[], {}, false, boxes.Keys;
    }

    /** `pendura`: queue a pointer for the expansion at the end of the step. */
    method Hang(v: GValue)
      modifies `pending, `met, `dropped
      ensures St() == AfterHang(v, old(St()))
      ensures |old(pending)| < MAX_POINTERS ==> pending == old(pending) + [v] && v in met && dropped == old(dropped)
      ensures |old(pending)| >= MAX_POINTERS ==> pending == old(pending) && met == old(met) && dropped
    {
      if |pending| < MAX_POINTERS {
        pending := pending + [v];
        met := met + {v};
      } else {
        dropped := true;
      }
    }

    /** `marca_endereco`: the box that lives at an address; a null address is not marked. */
    method MarkAddress(addr: Option<nat>, rid: Id)
      modifies `byAddress
      ensures byAddress == if addr.Some? && addr.value != 0 then old(byAddress)[addr.value := rid] else old(byAddress)
    {
      if addr.Some? && addr.value != 0 {
        byAddress := byAddress[addr.value := rid];
      }
    }

    /** `id_for`: the id of a key, or None when the step already has its 200 boxes. */
    method IdFor(key: Key) returns (rid: Option<Id>)
      modifies `used, registry
      ensures (St(), rid) == AfterIdFor(key, old(St()))
      ensures key !in old(used) ==> (rid.None? <==> |old(used)| >= MAX_HEAP_OBJECTS)
      ensures rid.Some? ==> key in used && key in registry.ids && registry.ids[key] == rid.value
      ensures |used| > |old(used)| ==> key !in old(used) && |used| <= MAX_HEAP_OBJECTS
    {
      if key in used {
        return if key in registry.ids then Some(registry.ids[key]) else None;
      }
      if |used| >= MAX_HEAP_OBJECTS {
        return None;
      }
      var r := registry.IdFor(key);
      used := used + {key};
      rid := Some(r);
    }

    /** The id of an aggregate's key, recorded under the value's address. */
    method Identify(v: GValue, key: Key) returns (rid: Option<Id>)
      modifies `used, `truncated, `byAddress, registry
      ensures (St(), rid) == AfterIdentify(v, key, old(St()))
    {
      rid := IdFor(key);
      if rid.None? {
        truncated := true;
        return;
      }
      if !v.Dictionary? {
        MarkAddress(if v.Struct? || v.Array? || v.Slice? then v.addr else None, rid.value);
      }
    }

    /** `value_v2`: the drawing of a value, with a box for every aggregate it holds.  A box
        enters the heap before its parts are read. */
    method ValueV2(v: GValue, depth: nat) returns (slot: GSlot)
      modifies this, registry
      ensures (St(), slot) == AfterValue(v, depth, old(St()))
      ensures GivesSlot(v, depth, old(St()), St(), slot)
      decreases v, 3
    {
      hide GivesSlot;
      ValueGives(v, depth, St());
      if v.Scalar? {
        slot := PrimSlot(v.ty, v.text);
      } else if v.Pointer? {
        if v.target != 0 {
          Hang(v);
        }
        slot := PtrSlot(v.target);
      } else if depth >= MAX_DEPTH {
        slot := OpaqueSlot(DEPTH);
      } else if v.Text? {
        slot := PrimSlot("string", v.text);
      } else if v.Other? {
        slot := OpaqueSlot(v.reason);
      } else if KeyOf(v).None? {
        slot := OpaqueSlot(BAD_LENGTH);
      } else {
        slot := BoxFor(v, KeyOf(v).value, depth);
      }
    }

    /** The reference to the box of an aggregate, which is drawn the first time its key is met. */
    method BoxFor(v: GValue, key: Key, depth: nat) returns (slot: GSlot)
      requires KeyOf(v) == Some(key)
      modifies this, registry
      ensures (St(), slot) == AfterBox(v, key, depth, old(St()))
      ensures depth < MAX_DEPTH ==> GivesSlot(v, depth, old(St()), St(), slot)
      decreases v, 2
    {
      hide AfterIdentify, AfterContents, GivesSlot, GivesBox;
      if depth < MAX_DEPTH {
        BoxGives(v, key, depth, St());
      }
      assert !v.Pointer?;
      var rid := Identify(v, key);
      if rid.None? {
        return OpaqueSlot(LIMIT);
      }
      var r := rid.value;
      if r !in boxes {
        ghost var h := St();
        boxes := boxes[r := EmptyBox(v)];
        origin := origin[r := (v, depth)];
        assert St() == WithReserved(h, r, v, depth);
        var box := DrawBox(v, depth);
        boxes := boxes[r := box];
      }
      slot := RefSlot(r);
    }

    /** The contents of a box whose slot is already reserved. */
    method DrawBox(v: GValue, depth: nat) returns (box: GBox)
      requires KeyOf(v).Some? && !v.Pointer?
      modifies this, registry
      ensures (St(), box) == AfterContents(v, depth, old(St()))
      ensures GivesBox(v, depth, old(St()), St(), box)
      decreases v, 1
    {
      hide AfterCells, AfterFields, GivesBox;
      ContentsGive(v, depth, St());
      match v
      case Struct(_, ty, fields) =>
        var drawn := DrawFields(v, fields, Min(MAX_FIELDS, |fields|), depth + 1);
        box := ObjectBox(ty, drawn, |fields| > MAX_FIELDS);
      case Array(_, _, cells) =>
        var items := DrawCells(v, cells, |cells|, depth + 1);
        box := ListBox(None, items, |cells| > MAX_ITEMS);
      case Slice(_, ty, _, _, len, cells) =>
        var items := DrawCells(v, cells, len.value, depth + 1);
        box := ListBox(Some(ty), items, len.value > MAX_ITEMS);
      case Dictionary(_, ty, _, lenText) =>
        box := ObjectBox(ty, map["len" := PrimSlot("int", lenText)], true);
    }

    /** The first cells of an array or slice, up to MAX_ITEMS; an unreadable one is opaque. */
    method DrawCells(ghost v: GValue, cells: seq<Option<GValue>>, len: nat, depth: nat) returns (items: seq<GSlot>)
      requires (v.Array? || v.Slice?) && cells == v.cells
      modifies this, registry
      ensures (St(), items) == AfterCells(v, cells, Min(MAX_ITEMS, len), depth, old(St()))
      decreases v, 0
    {
      hide AfterValue, GivesSlot;
      items := [];
      for i := 0 to Min(MAX_ITEMS, len)
        invariant (St(), items) == AfterCells(v, cells, i, depth, old(St()))
      {
        var slot := OpaqueSlot(UNREADABLE);
        if i < |cells| && cells[i].Some? {
          slot := ValueV2(cells[i].value, depth);
        }
        items := items + [slot];
      }
    }

    /** The first `n` named parts of a struct, or the visible variables of a frame. */
    method DrawFields(ghost v: GValue, fields: seq<(Option<string>, Option<GValue>)>, n: nat, depth: nat)
        returns (drawn: map<string, GSlot>)
      requires v.Struct? && fields == v.fields && n <= |fields|
      modifies this, registry
      ensures (St(), drawn) == AfterFields(v, fields, n, depth, old(St()))
      decreases v, 0
    {
      hide AfterValue, GivesSlot;
      drawn := map[];
      for i := 0 to n
        invariant (St(), drawn) == AfterFields(v, fields, i, depth, old(St()))
      {
        var (name, part) := fields[i];
        if name.None? {
          continue;
        }
        var slot := OpaqueSlot(UNREADABLE);
        if part.Some? {
          slot := ValueV2(part.value, depth);
        }
        drawn := drawn[name.value := slot];
      }
    }
  }

  /** Whatever boxes are still being filled: the invariant stays, nothing drawn before changes,
      and the slot is the reference drawing of the value, with its box unless the step is full. */
  ghost predicate GivesSlot(v: GValue, depth: nat, g: HeapState, h: HeapState, slot: GSlot) {
    forall open: set<Id> | Inv(g, open) ::
      Inv(h, open) && Adds(g, h) && SlotSettled(v, depth, h) && slot == SlotG(v, depth, h.used, h.ids)
  }

  ghost predicate GivesBox(v: GValue, depth: nat, g: HeapState, h: HeapState, box: GBox)
    requires KeyOf(v).Some?
  {
    forall open: set<Id> | Inv(g, open) ::
      Inv(h, open) && Adds(g, h) && BoxSettled(v, depth, h) && box == BoxG(v, depth, h.used, h.ids)
  }

  lemma ValueGives(v: GValue, depth: nat, g: HeapState)
    ensures var (h, slot) := AfterValue(v, depth, g); GivesSlot(v, depth, g, h, slot)
  {
    hide AfterValue, Inv, Adds, SlotSettled, SlotG;
    forall open: set<Id> | Inv(g, open)
      ensures var (h, slot) := AfterValue(v, depth, g);
              Inv(h, open) && Adds(g, h) && SlotSettled(v, depth, h) && slot == SlotG(v, depth, h.used, h.ids)
    {
      ValueDrawn(v, depth, g, open);
    }
  }

  lemma BoxGives(v: GValue, key: Key, depth: nat, g: HeapState)
    requires KeyOf(v) == Some(key) && depth < MAX_DEPTH
    ensures var (h, slot) := AfterBox(v, key, depth, g); GivesSlot(v, depth, g, h, slot)
  {
    hide AfterBox, Inv, Adds, SlotSettled, SlotG;
    forall open: set<Id> | Inv(g, open)
      ensures var (h, slot) := AfterBox(v, key, depth, g);
              Inv(h, open) && Adds(g, h) && SlotSettled(v, depth, h) && slot == SlotG(v, depth, h.used, h.ids)
    {
      BoxDrawn(v, key, depth, g, open);
    }
  }

  lemma ContentsGive(v: GValue, depth: nat, g: HeapState)
    requires KeyOf(v).Some?
    ensures var (h, box) := AfterContents(v, depth, g); GivesBox(v, depth, g, h, box)
  {
    hide AfterContents, Inv, Adds, BoxSettled, BoxG;
    forall open: set<Id> | Inv(g, open)
      ensures var (h, box) := AfterContents(v, depth, g);
              Inv(h, open) && Adds(g, h) && BoxSettled(v, depth, h) && box == BoxG(v, depth, h.used, h.ids)
    {
      ContentsDrawn(v, depth, g, open);
    }
  }

  /** The address of a boxed value leads to a box (a map's own address is not recorded). */
  ghost predicate Marked(v: GValue, byAddress: map<nat, Id>) {
    SelfAddr(v) != 0 ==> SelfAddr(v) in byAddress
  }

  lemma SlotOfKey(v: GValue, key: Key, depth: nat, h: HeapState)
    requires KeyOf(v) == Some(key) && depth < MAX_DEPTH
    ensures key in h.used && key in h.ids ==>
              SlotSettled(v, depth, h) && SlotG(v, depth, h.used, h.ids) == RefSlot(h.ids[key])
    ensures key !in h.used && |h.used| == MAX_HEAP_OBJECTS ==>
              SlotSettled(v, depth, h) && SlotG(v, depth, h.used, h.ids) == OpaqueSlot(LIMIT)
  {
  }

  // ---- the operations keep the invariant -----------------------------------------------

  lemma AddsReflexive(g: HeapState, open: set<Id>)
    requires Inv(g, open)
    ensures Adds(g, g)
  {
    hide DrawnOk, OriginOk;
  }

  lemma KeysRegistered(g: HeapState, open: set<Id>)
    requires Inv(g, open)
    ensures forall k | k in g.used :: k in g.ids
    ensures |g.used| <= MAX_HEAP_OBJECTS
  {
    hide DrawnOk, OriginOk, QueueOk;
  }

  lemma DrawnStays(g: HeapState, h: HeapState, r: Id)
    requires r in g.origin && DrawnOk(g, r) && Adds(g, h) && UsedOk(g)
    ensures r in h.origin && DrawnOk(h, r)
  {
    hide BoxSettled, BoxG, UsedOk;
    BoxStays(g.origin[r].0, g.origin[r].1, g, h);
  }

  /** Adding to the state without touching the boxes already drawn. */
  lemma AddedKeepsInv(g: HeapState, h: HeapState, openG: set<Id>, openH: set<Id>)
    requires Inv(g, openG) && Adds(g, h)
    requires RegistryOk(h.ids, h.counter, h.names) && UsedOk(h) && QueueOk(h)
    requires forall r | r in h.origin :: r in openH || (r in g.origin && r !in openG)
    ensures Inv(h, openH)
  {
    hide DrawnOk, Adds, RegistryOk, QueueOk, OriginOk;
    forall r | r in h.origin && r !in openH ensures DrawnOk(h, r) {
      DrawnStays(g, h, r);
    }
  }

  lemma HangKeepsInv(g: HeapState, h: HeapState, v: GValue, open: set<Id>)
    requires Inv(g, open) && v.Pointer? && v.target != 0
    requires if |g.pending| < MAX_POINTERS
             then h == g.(pending := g.pending + [v], met := g.met + {v})
             else h == g.(dropped := true)
    ensures Inv(h, open) && Adds(g, h) && (v in h.met || h.dropped)
  {
    hide DrawnOk, OriginOk;
    assert UsedOk(h) by {
      SameUsed(g, h);
    }
    assert |g.pending| < MAX_POINTERS ==> v in h.pending;
    AddedKeepsInv(g, h, open, open);
  }

  lemma SameUsed(g: HeapState, h: HeapState)
    requires UsedOk(g) && h.ids == g.ids && h.used == g.used && h.boxes == g.boxes && h.origin == g.origin
             && h.base == g.base && h.names == g.names
    ensures UsedOk(h)
  {
  }

  lemma FullKeepsInv(g: HeapState, h: HeapState, key: Key, open: set<Id>)
    requires Inv(g, open) && h == g.(truncated := true)
    requires key !in g.used && |g.used| >= MAX_HEAP_OBJECTS
    ensures Inv(h, open) && Adds(g, h) && |h.used| == MAX_HEAP_OBJECTS && key !in h.used
  {
    hide DrawnOk, OriginOk;
    SameUsed(g, h);
    AddedKeepsInv(g, h, open, open);
  }

  /** The effect of `id_for` that found or made room, and of marking the address. */
  ghost predicate Identified(g: HeapState, h: HeapState, v: GValue, key: Key, r: Id) {
    var hit := key in g.ids;
    && (key in g.used || |g.used| < MAX_HEAP_OBJECTS)
    && r == (if hit then g.ids[key] else g.counter + 1)
    && h.ids == g.ids[key := r]
    && h.counter == (if hit then g.counter else r)
    && h.names == (if hit then g.names else g.names[r := key])
    && h.used == g.used + {key}
    && h.truncated == g.truncated && h.pending == g.pending && h.met == g.met && h.dropped == g.dropped
    && h.base == g.base
    && h.byAddress == (if SelfAddr(v) != 0 then g.byAddress[SelfAddr(v) := r] else g.byAddress)
  }

  lemma IdentifiedId(g: HeapState, h: HeapState, v: GValue, key: Key, r: Id)
    requires Identified(g, h, v, key, r)
    ensures key in h.ids && h.ids[key] == r
    ensures forall b, o :: Identified(g, h.(boxes := b, origin := o), v, key, r)
  {
  }

  lemma KnownKeepsInv(g: HeapState, h: HeapState, v: GValue, key: Key, open: set<Id>)
    requires Inv(g, open) && KeyOf(v) == Some(key)
    requires key in h.ids && Identified(g, h, v, key, h.ids[key]) && h.boxes == g.boxes && h.origin == g.origin
    requires h.ids[key] in g.boxes
    ensures Inv(h, open) && Adds(g, h) && key in h.used && Marked(v, h.byAddress)
  {
    hide DrawnOk, OriginOk, UsedOk, RegistryOk, QueueOk, Adds;
    KnownChangesNothing(g, h, v, key);
    SameUsed(g, h);
    KnownQueue(g, h, v, key);
    AddedKeepsInv(g, h, open, open);
  }

  lemma KnownChangesNothing(g: HeapState, h: HeapState, v: GValue, key: Key)
    requires RegistryOk(g.ids, g.counter, g.names) && UsedOk(g)
    requires key in h.ids && Identified(g, h, v, key, h.ids[key]) && h.boxes == g.boxes && h.origin == g.origin
    requires h.ids[key] in g.boxes
    ensures key in g.used && h.used == g.used && h.ids == g.ids && h.names == g.names && h.counter == g.counter
    ensures Adds(g, h)
  {
    hide OriginOk;
    BoxedIsUsed(g, key, h.ids[key]);
    hide UsedOk, RegistryOk;
  }

  lemma KnownQueue(g: HeapState, h: HeapState, v: GValue, key: Key)
    requires QueueOk(g) && KeyOf(v) == Some(key) && key in h.ids && Identified(g, h, v, key, h.ids[key])
    requires h.boxes == g.boxes && h.ids[key] in g.boxes
    ensures QueueOk(h) && Marked(v, h.byAddress)
  {
  }

  lemma BoxedIsUsed(g: HeapState, key: Key, r: Id)
    requires RegistryOk(g.ids, g.counter, g.names) && UsedOk(g) && r in g.boxes
    requires r == if key in g.ids then g.ids[key] else g.counter + 1
    ensures key in g.used
  {
    if key in g.ids {
      if r !in g.base {
        assert OriginOk(g, r);
      }
    }
  }

  ghost predicate Reserved(g: HeapState, h: HeapState, v: GValue, key: Key, depth: nat) {
    && KeyOf(v) == Some(key) && key in h.ids
    && var r := h.ids[key];
       && Identified(g, h, v, key, r) && r !in g.boxes
       && h.boxes == g.boxes[r := EmptyBox(v)] && h.origin == g.origin[r := (v, depth)]
  }

  lemma ReservedIsNew(g: HeapState, h: HeapState, v: GValue, key: Key, depth: nat)
    requires RegistryOk(g.ids, g.counter, g.names) && UsedOk(g) && Reserved(g, h, v, key, depth)
    ensures key !in g.used && |h.used| == |g.used| + 1 && h.ids[key] !in g.base
    ensures h.ids[key] !in g.origin
  {
    hide OriginOk;
  }

  lemma ReservedAdds(g: HeapState, h: HeapState, v: GValue, key: Key, depth: nat)
    requires RegistryOk(g.ids, g.counter, g.names) && UsedOk(g) && Reserved(g, h, v, key, depth)
    ensures Adds(g, h) && Marked(v, h.byAddress)
  {
    hide UsedOk, OriginOk;
    ReservedIsNew(g, h, v, key, depth);
  }

  lemma ReservedRegistry(g: HeapState, h: HeapState, v: GValue, key: Key, depth: nat)
    requires RegistryOk(g.ids, g.counter, g.names) && QueueOk(g) && Reserved(g, h, v, key, depth)
    ensures RegistryOk(h.ids, h.counter, h.names) && QueueOk(h)
  {
  }

  lemma ReservedUsed(g: HeapState, h: HeapState, v: GValue, key: Key, depth: nat)
    requires RegistryOk(g.ids, g.counter, g.names) && UsedOk(g) && Reserved(g, h, v, key, depth)
    ensures UsedOk(h)
  {
    hide OriginOk;
    ReservedIsNew(g, h, v, key, depth);
    assert h.boxes.Keys == h.base + h.origin.Keys;
    forall x | x in h.origin ensures OriginOk(h, x) {
      ReservedOrigin(g, h, v, key, depth, x);
    }
  }

  lemma ReservedOrigin(g: HeapState, h: HeapState, v: GValue, key: Key, depth: nat, x: Id)
    requires RegistryOk(g.ids, g.counter, g.names) && UsedOk(g) && Reserved(g, h, v, key, depth) && x in h.origin
    ensures OriginOk(h, x)
  {
    ReservedIsNew(g, h, v, key, depth);
    if x != h.ids[key] {
      assert OriginOk(g, x);
    }
  }

  lemma ReservedKeepsInv(g: HeapState, h: HeapState, v: GValue, key: Key, depth: nat, open: set<Id>)
    requires Inv(g, open) && Reserved(g, h, v, key, depth)
    ensures Inv(h, open + {h.ids[key]}) && Adds(g, h) && key in h.used && Marked(v, h.byAddress)
  {
    hide DrawnOk, OriginOk, Marked, UsedOk, RegistryOk, QueueOk, Adds;
    ReservedAdds(g, h, v, key, depth);
    ReservedRegistry(g, h, v, key, depth);
    ReservedUsed(g, h, v, key, depth);
    AddedKeepsInv(g, h, open, open + {h.ids[key]});
  }

  lemma FilledKeepsInv(g: HeapState, h: HeapState, h1: HeapState, h2: HeapState,
                       v: GValue, key: Key, depth: nat, box: GBox, open: set<Id>)
    requires Reserved(g, h, v, key, depth) && Adds(g, h) && Adds(h, h1) && Inv(h1, open + {h.ids[key]})
    requires Marked(v, h.byAddress) && BoxSettled(v, depth, h1) && box == BoxG(v, depth, h1.used, h1.ids)
    requires h2 == h1.(boxes := h1.boxes[h.ids[key] := box])
    ensures Inv(h2, open) && Adds(g, h2) && key in h2.used && key in h2.ids && h2.ids[key] == h.ids[key]
    ensures Marked(v, h2.byAddress)
  {
    hide BoxG, BoxSettled, RegistryOk, DrawnOk, OriginOk, UsedOk, QueueOk, Adds, Marked, Identified;
    var r := h.ids[key];
    FilledAdds(g, h, h1, h2, v, key, depth);
    FilledUsed(h1, h2, r);
    forall x | x in h2.origin && x !in open ensures DrawnOk(h2, x) {
      FilledDrawn(h1, h2, r, x, v, depth, open);
    }
  }

  lemma FilledAdds(g: HeapState, h: HeapState, h1: HeapState, h2: HeapState, v: GValue, key: Key, depth: nat)
    requires Reserved(g, h, v, key, depth) && Adds(g, h) && Adds(h, h1)
    requires h2 == h1.(boxes := h2.boxes) && h2.boxes.Keys >= h1.boxes.Keys
    requires forall x | x in h1.boxes && x != h.ids[key] :: h2.boxes[x] == h1.boxes[x]
    ensures Adds(g, h2) && key in h2.used && key in h2.ids && h2.ids[key] == h.ids[key]
    ensures h.ids[key] in h1.origin && h1.origin[h.ids[key]] == (v, depth)
    ensures Marked(v, h.byAddress) ==> Marked(v, h2.byAddress)
  {
    AddsTransitive(g, h, h1);
  }

  lemma FilledUsed(g: HeapState, h: HeapState, r: Id)
    requires UsedOk(g) && QueueOk(g) && r in g.origin && r in h.boxes && h == g.(boxes := g.boxes[r := h.boxes[r]])
    ensures UsedOk(h) && QueueOk(h)
  {
    assert OriginOk(g, r);
    assert h.boxes.Keys == g.boxes.Keys;
    forall x | x in h.origin ensures OriginOk(h, x) {
      assert OriginOk(g, x);
    }
    hide OriginOk;
  }

  lemma FilledDrawn(g: HeapState, h: HeapState, r: Id, x: Id, v: GValue, depth: nat, open: set<Id>)
    requires Inv(g, open + {r}) && r in g.origin && g.origin[r] == (v, depth) && KeyOf(v).Some?
             && BoxSettled(v, depth, g)
    requires h == g.(boxes := g.boxes[r := BoxG(v, depth, g.used, g.ids)]) && x in g.origin && x !in open
    ensures DrawnOk(h, x)
  {
    hide BoxG, BoxSettled, UsedOk, RegistryOk, QueueOk;
    if x != r {
      assert DrawnOk(g, x);
    }
    SettledIgnoresBoxes(g.origin[x].0, g.origin[x].1, g, h);
  }

  lemma SettledIgnoresBoxes(v: GValue, depth: nat, g: HeapState, h: HeapState)
    requires BoxSettled(v, depth, g) && h.used == g.used && h.met == g.met && h.dropped == g.dropped
    ensures BoxSettled(v, depth, h)
  {
  }

  lemma NextCell(f: HeapState, g: HeapState, h: HeapState, cells: seq<Option<GValue>>, i: nat, depth: nat,
                 open: set<Id>)
    requires Inv(g, open) && Adds(f, g) && Adds(g, h) && CellsSettled(cells, i, depth, g)
    requires CellAt(cells, i).Some? ==> SlotSettled(cells[i].value, depth, h)
    ensures Adds(f, h) && CellsSettled(cells, i + 1, depth, h)
    ensures CellsG(cells, i + 1, depth, h.used, h.ids) ==
            CellsG(cells, i, depth, g.used, g.ids) + [CellG(CellAt(cells, i), depth, h.used, h.ids)]
  {
    hide Adds, SlotG, SlotSettled, UsedOk, DrawnOk, RegistryOk, QueueOk;
    AddsTransitive(f, g, h);
    CellsStay(cells, i, depth, g, h);
  }

  lemma NextField(f: HeapState, g: HeapState, h: HeapState, fs: seq<(Option<string>, Option<GValue>)>, i: nat,
                  depth: nat, open: set<Id>)
    requires i < |fs| && Inv(g, open) && Adds(f, g) && Adds(g, h) && FieldsSettled(fs, i, depth, g)
    requires fs[i].0.Some? && fs[i].1.Some? ==> SlotSettled(fs[i].1.value, depth, h)
    ensures Adds(f, h) && FieldsSettled(fs, i + 1, depth, h)
    ensures FieldsG(fs, i + 1, depth, h.used, h.ids) ==
            if fs[i].0.None? then FieldsG(fs, i, depth, g.used, g.ids)
            else FieldsG(fs, i, depth, g.used, g.ids)[fs[i].0.value := CellG(fs[i].1, depth, h.used, h.ids)]
  {
    hide Adds, SlotG, SlotSettled, UsedOk, DrawnOk, RegistryOk, QueueOk;
    AddsTransitive(f, g, h);
    FieldsStay(fs, i, depth, g, h);
  }

  // ---- serializing draws --------------------------------------------------------------------

  /** Serializing a value gives its drawing: every aggregate part has its box, or the step is
      full; every pointer part was queued, or the queue was full; nothing drawn before changes. */
  lemma {:induction false} ValueDrawn(v: GValue, depth: nat, g: HeapState, open: set<Id>)
    requires Inv(g, open)
    ensures var (h, slot) := AfterValue(v, depth, g);
            && Inv(h, open) && Adds(g, h)
            && SlotSettled(v, depth, h) && slot == SlotG(v, depth, h.used, h.ids)
            && (slot.RefSlot? ==> Marked(v, h.byAddress))
    decreases v, 3, 0
  {
    hide Inv, Adds, UsedOk, AfterBox, AfterHang;
    AddsReflexive(g, open);
    if v.Pointer? && v.target != 0 {
      HungPointer(g, v, open);
    } else if !v.Scalar? && !v.Pointer? && !v.Text? && !v.Other? && depth < MAX_DEPTH && KeyOf(v).Some? {
      BoxDrawn(v, KeyOf(v).value, depth, g, open);
    }
  }

  lemma HungPointer(g: HeapState, v: GValue, open: set<Id>)
    requires Inv(g, open) && v.Pointer? && v.target != 0
    ensures var h := AfterHang(v, g); Inv(h, open) && Adds(g, h) && (v in h.met || h.dropped)
  {
    HangKeepsInv(g, AfterHang(v, g), v, open);
  }

  lemma IdForOrFull(g: HeapState, key: Key)
    requires key in g.used ==> key in g.ids
    ensures var (h, rid) := AfterIdFor(key, g);
            && (rid.None? ==> key !in g.used && |g.used| >= MAX_HEAP_OBJECTS && h == g)
            && (rid.Some? ==> Registered(g, h, key, rid.value))
  {
    if key in g.used {
      assert g.ids[key := g.ids[key]] == g.ids && g.used + {key} == g.used;
    }
  }

  ghost predicate Registered(g: HeapState, h: HeapState, key: Key, r: Id) {
    && (key in g.used || |g.used| < MAX_HEAP_OBJECTS)
    && r == (if key in g.ids then g.ids[key] else g.counter + 1)
    && h == g.(ids := g.ids[key := r], counter := if key in g.ids then g.counter else r,
               names := if key in g.ids then g.names else g.names[r := key], used := g.used + {key})
  }

  lemma MarkedIsIdentified(g: HeapState, h: HeapState, v: GValue, key: Key, r: Id)
    requires Registered(g, h, key, r)
    ensures var m := if SelfAddr(v) == 0 then h else h.(byAddress := h.byAddress[SelfAddr(v) := r]);
            Identified(g, m, v, key, r) && m.boxes == g.boxes && m.origin == g.origin
  {
    hide SelfAddr;
  }

  lemma IdentifiedOrFull(g: HeapState, v: GValue, key: Key, open: set<Id>)
    requires Inv(g, open) && KeyOf(v) == Some(key)
    ensures var (h, rid) := AfterIdentify(v, key, g);
            && (rid.None? ==> key !in g.used && |g.used| >= MAX_HEAP_OBJECTS && h == g.(truncated := true))
            && (rid.Some? ==> Identified(g, h, v, key, rid.value) && h.boxes == g.boxes && h.origin == g.origin)
  {
    hide Inv, AfterIdentify, Identified, KeyOf;
    KeysRegistered(g, open);
    IdentifiedWith(g, v, key);
  }

  lemma IdentifiedWith(g: HeapState, v: GValue, key: Key)
    requires key in g.used ==> key in g.ids
    ensures var (h, rid) := AfterIdentify(v, key, g);
            && (rid.None? ==> key !in g.used && |g.used| >= MAX_HEAP_OBJECTS && h == g.(truncated := true))
            && (rid.Some? ==> Identified(g, h, v, key, rid.value) && h.boxes == g.boxes && h.origin == g.origin)
  {
    hide AfterIdFor, SelfAddr, Identified, Registered;
    IdForOrFull(g, key);
    var (h1, rid) := AfterIdFor(key, g);
    if rid.Some? {
      MarkedIsIdentified(g, h1, v, key, rid.value);
    }
  }

  lemma {:induction false} BoxDrawn(v: GValue, key: Key, depth: nat, g: HeapState, open: set<Id>)
    requires Inv(g, open) && KeyOf(v) == Some(key) && depth < MAX_DEPTH
    ensures var (h, slot) := AfterBox(v, key, depth, g);
            && Inv(h, open) && Adds(g, h)
            && SlotSettled(v, depth, h) && slot == SlotG(v, depth, h.used, h.ids)
            && (slot.RefSlot? ==> Marked(v, h.byAddress))
    decreases v, 2, 0
  {
    hide Inv, Adds, UsedOk, SlotG, SlotSettled, BoxSettled, BoxG, Marked, Identified, EmptyBox, KeyOf,
         RegistryOk, QueueOk, Keeps, DrawnOk, AfterIdentify, AfterContents;
    KeysRegistered(g, open);
    IdentifiedOrFull(g, v, key, open);
    var (h1, rid) := AfterIdentify(v, key, g);
    var (h, slot) := AfterBox(v, key, depth, g);
    if rid.None? {
      FullKeepsInv(g, h1, key, open);
    } else {
      var r := rid.value;
      IdentifiedId(g, h1, v, key, r);
      if r in h1.boxes {
        KnownKeepsInv(g, h1, v, key, open);
      } else {
        var h2 := WithReserved(h1, r, v, depth);
        ReservedKeepsInv(g, h2, v, key, depth, open);
        ContentsDrawn(v, depth, h2, open + {r});
        var (h3, box) := AfterContents(v, depth, h2);
        FilledKeepsInv(g, h2, h3, h, v, key, depth, box, open);
      }
    }
    SlotOfKey(v, key, depth, h);
  }

  lemma {:induction false} ContentsDrawn(v: GValue, depth: nat, g: HeapState, open: set<Id>)
    requires Inv(g, open) && KeyOf(v).Some?
    ensures var (h, box) := AfterContents(v, depth, g);
            && Inv(h, open) && Adds(g, h)
            && BoxSettled(v, depth, h) && box == BoxG(v, depth, h.used, h.ids)
    decreases v, 1, 0
  {
    hide Inv, Adds, CellsSettled, FieldsSettled, CellsG, FieldsG, AfterCells, AfterFields;
    AddsReflexive(g, open);
    match v
    case Struct(_, _, fields) => FieldsDrawn(v, fields, Drawn(v), depth + 1, g, open);
    case Array(_, _, cells) => CellsDrawn(v, cells, Drawn(v), depth + 1, g, open);
    case Slice(_, _, _, _, _, cells) => CellsDrawn(v, cells, Drawn(v), depth + 1, g, open);
    case Dictionary(_, _, _, _) =>
  }

  lemma {:induction false} CellsDrawn(v: GValue, cells: seq<Option<GValue>>, n: nat, depth: nat, g: HeapState,
                                      open: set<Id>)
    requires Inv(g, open) && (v.Array? || v.Slice?) && cells == v.cells
    ensures var (h, items) := AfterCells(v, cells, n, depth, g);
            && Inv(h, open) && Adds(g, h)
            && CellsSettled(cells, n, depth, h) && items == CellsG(cells, n, depth, h.used, h.ids)
    decreases v, 0, n
  {
    hide Inv, Adds, SlotG, SlotSettled, Marked, AfterValue;
    AddsReflexive(g, open);
    if n > 0 {
      CellsDrawn(v, cells, n - 1, depth, g, open);
      var (h, _) := AfterCells(v, cells, n - 1, depth, g);
      AddsReflexive(h, open);
      if n - 1 < |cells| && cells[n - 1].Some? {
        ValueDrawn(cells[n - 1].value, depth, h, open);
      }
      NextCell(g, h, AfterCells(v, cells, n, depth, g).0, cells, n - 1, depth, open);
    }
  }

  lemma {:induction false} FieldsDrawn(v: GValue, fs: seq<(Option<string>, Option<GValue>)>, n: nat, depth: nat,
                                       g: HeapState, open: set<Id>)
    requires Inv(g, open) && v.Struct? && fs == v.fields && n <= |fs|
    ensures var (h, drawn) := AfterFields(v, fs, n, depth, g);
            && Inv(h, open) && Adds(g, h)
            && FieldsSettled(fs, n, depth, h) && drawn == FieldsG(fs, n, depth, h.used, h.ids)
    decreases v, 0, n
  {
    hide Inv, Adds, SlotG, SlotSettled, Marked, AfterValue;
    AddsReflexive(g, open);
    if n > 0 {
      FieldsDrawn(v, fs, n - 1, depth, g, open);
      var (h, _) := AfterFields(v, fs, n - 1, depth, g);
      AddsReflexive(h, open);
      if fs[n - 1].0.Some? && fs[n - 1].1.Some? {
        ValueDrawn(fs[n - 1].1.value, depth, h, open);
      }
      NextField(g, h, AfterFields(v, fs, n, depth, g).0, fs, n - 1, depth, open);
    }
  }
}
