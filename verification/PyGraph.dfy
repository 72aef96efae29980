/**
  The Python object graph as the trace harness reads it, and the boxes it draws.

  A live object is its address; `Store` is the memory at one step.  Strings here are
  already rendered (see SafeRepr), so a primitive is its type name and text.
 */
module PyGraph {
  import opened Numbers
  import opened Options
  import opened HeapDelta

  const MAX_ITEMS := 30          // cells drawn per container
  const MAX_VARS := 60           // fields, captured names or variables drawn
  const MAX_HEAP_OBJECTS := 200  // boxes per step

  type Addr = nat

  datatype Value = Prim(kind: string, text: string) | Obj(addr: Addr)

  /** What `_expand_object` can see of an object.  A function's cell may be empty, and
      an instance `__dict__` may hold a key that is not a string. */
  datatype Shape =
    | Sequence(kind: string, items: seq<Value>)
    | Dict(entries: seq<(Value, Value)>)
    | Function(name: string, params: seq<string>, names: seq<string>, cells: seq<Option<Value>>)
    | Instance(fields: seq<(Option<string>, Value)>)
    | Unreadable

  datatype Object = Object(typeName: string, shape: Shape)

  type Store = map<Addr, Object>

  /** An inline primitive or a reference to a box. */
  datatype Slot = PrimSlot(kind: string, text: string) | Ref(id: Id)

  datatype Box =
    | ItemsBox(kind: string, items: seq<Slot>, truncated: bool)
    | DictBox(entries: seq<(Slot, Slot)>, truncated: bool)
    | FunctionBox(name: string, params: seq<string>, closure: map<string, Slot>, truncated: bool)
    | FieldsBox(cls: string, fields: map<string, Slot>, truncated: bool)
    | OpaqueBox(cls: string)

  /** Address to dense id and type name: the harness's `idmap` without its counter. */
  type IdMap = map<Addr, (Id, string)>

  // ---- the drawing of one object, given the ids ------------------------------

  /** The reference semantics of one slot.  Id 0 is never handed out. */
  function SlotOf(v: Value, ids: IdMap): Slot {
    match v
    case Prim(kind, text) => PrimSlot(kind, text)
    case Obj(a) => Ref(if a in ids then ids[a].0 else 0)
  }

  function SlotsOf(vs: seq<Value>, ids: IdMap): seq<Slot> {
    if vs == [] then [] else SlotsOf(vs[..|vs| - 1], ids) + [SlotOf(vs[|vs| - 1], ids)]
  }

  function PairsOf(es: seq<(Value, Value)>, ids: IdMap): seq<(Slot, Slot)> {
    if es == [] then []
    else
      var last := es[|es| - 1];
      PairsOf(es[..|es| - 1], ids) + [(SlotOf(last.0, ids), SlotOf(last.1, ids))]
  }

  function FieldsOf(fs: seq<(Option<string>, Value)>, ids: IdMap): map<string, Slot> {
    if fs == [] then map[]
    else
      var rest, last := FieldsOf(fs[..|fs| - 1], ids), fs[|fs| - 1];
      if last.0.None? then rest else rest[last.0.value := SlotOf(last.1, ids)]
  }

  const EMPTY_CELL := PrimSlot("empty", "(not bound yet)")

  function CellSlot(c: Option<Value>, ids: IdMap): Slot {
    match c
    case None => EMPTY_CELL
    case Some(v) => SlotOf(v, ids)
  }

  function ClosureOf(names: seq<string>, cells: seq<Option<Value>>, ids: IdMap): map<string, Slot>
    requires |names| == |cells|
  {
    if names == [] then map[]
    else
      var n := |names| - 1;
      ClosureOf(names[..n], cells[..n], ids)[names[n] := CellSlot(cells[n], ids)]
  }

  /** How many captured names are drawn: the loop stops at MAX_VARS and at the last cell. */
  function Captured(o: Shape): nat
    requires o.Function?
  {
    Min(MAX_VARS, Min(|o.names|, |o.cells|))
  }

  /** The box `_expand_object` must build for `o`. */
  function Draw(o: Object, ids: IdMap): Box {
    match o.shape
    case Sequence(kind, items) =>
      ItemsBox(kind, SlotsOf(items[..Min(MAX_ITEMS, |items|)], ids), |items| > MAX_ITEMS)
    case Dict(entries) =>
      DictBox(PairsOf(entries[..Min(MAX_ITEMS, |entries|)], ids), |entries| > MAX_ITEMS)
    case Function(name, params, names, cells) =>
      var n := Captured(o.shape);
      FunctionBox(name, params[..Min(MAX_ITEMS, |params|)], ClosureOf(names[..n], cells[..n], ids), |names| > MAX_VARS)
    case Instance(fields) =>
      FieldsBox(o.typeName, FieldsOf(fields[..Min(MAX_VARS, |fields|)], ids), |fields| > MAX_VARS)
    case Unreadable => OpaqueBox(o.typeName)
  }

  // ---- edges and reachability ------------------------------------------------

  function AddrsOf(v: Value): set<Addr> {
    if v.Obj? then {v.addr} else {}
  }

  function CellAddrs(c: Option<Value>): set<Addr> {
    if c.Some? then AddrsOf(c.value) else {}
  }

  function ItemAddrs(vs: seq<Value>): set<Addr> {
    set v | v in vs && v.Obj? :: v.addr
  }

  function EntryAddrs(es: seq<(Value, Value)>): set<Addr> {
    (set e | e in es && e.0.Obj? :: e.0.addr) + (set e | e in es && e.1.Obj? :: e.1.addr)
  }

  function FieldAddrs(fs: seq<(Option<string>, Value)>): set<Addr> {
    set f | f in fs && f.0.Some? && f.1.Obj? :: f.1.addr
  }

  function CellsAddrs(cs: seq<Option<Value>>): set<Addr> {
    set c | c in cs && c.Some? && c.value.Obj? :: c.value.addr
  }

  /** The objects whose references appear in the box of `o`: its edges under the item caps. */
  function ShownAddrs(o: Object): set<Addr> {
    match o.shape
    case Sequence(_, items) => ItemAddrs(items[..Min(MAX_ITEMS, |items|)])
    case Dict(entries) => EntryAddrs(entries[..Min(MAX_ITEMS, |entries|)])
    case Function(_, _, names, cells) => CellsAddrs(cells[..Captured(o.shape)])
    case Instance(fields) => FieldAddrs(fields[..Min(MAX_VARS, |fields|)])
    case Unreadable => {}
  }

  /** All edges of `o`, with no cap. */
  function AllAddrs(o: Object): set<Addr> {
    match o.shape
    case Sequence(_, items) => ItemAddrs(items)
    case Dict(entries) => EntryAddrs(entries)
    case Function(_, _, names, cells) => CellsAddrs(cells[..Min(|names|, |cells|)])
    case Instance(fields) => FieldAddrs(fields)
    case Unreadable => {}
  }

  /** The item caps cut nothing off this object. */
  predicate Uncut(o: Object) {
    match o.shape
    case Sequence(_, items) => |items| <= MAX_ITEMS
    case Dict(entries) => |entries| <= MAX_ITEMS
    case Function(_, _, names, _) => |names| <= MAX_VARS
    case Instance(fields) => |fields| <= MAX_VARS
    case Unreadable => true
  }

  lemma UncutShowsAll(o: Object)
    requires Uncut(o)
    ensures ShownAddrs(o) == AllAddrs(o)
  {
    match o.shape
    case Sequence(_, items) => assert items[..|items|] == items;
    case Dict(entries) => assert entries[..|entries|] == entries;
    case Function(_, _, _, _) =>
    case Instance(fields) => assert fields[..|fields|] == fields;
    case Unreadable =>
  }

  /** A live graph: every object an object refers to is live too. */
  ghost predicate Closed(s: Store) {
    forall a | a in s :: AllAddrs(s[a]) <= s.Keys
  }

  lemma ShownWithinAll(o: Object)
    ensures ShownAddrs(o) <= AllAddrs(o)
  {
    match o.shape
    case Sequence(_, items) =>
    case Dict(entries) =>
    case Function(_, _, names, cells) =>
      assert forall c | c in cells[..Captured(o.shape)] :: c in cells[..Min(|names|, |cells|)];
    case Instance(fields) =>
    case Unreadable =>
  }

  /** A chain of drawn references. */
  ghost predicate IsPath(s: Store, path: seq<Addr>) {
    && |path| > 0
    && (forall i | 0 <= i < |path| :: path[i] in s)
    && forall i | 0 <= i < |path| - 1 :: path[i + 1] in ShownAddrs(s[path[i]])
  }

  ghost predicate Reachable(s: Store, roots: set<Addr>, a: Addr) {
    exists path :: IsPath(s, path) && path[0] in roots && path[|path| - 1] == a
  }

  /** The same over all references, drawn or cut off by a cap. */
  ghost predicate IsFullPath(s: Store, path: seq<Addr>) {
    && |path| > 0
    && (forall i | 0 <= i < |path| :: path[i] in s)
    && forall i | 0 <= i < |path| - 1 :: path[i + 1] in AllAddrs(s[path[i]])
  }

  ghost predicate FullyReachable(s: Store, roots: set<Addr>, a: Addr) {
    exists path :: IsFullPath(s, path) && path[0] in roots && path[|path| - 1] == a
  }

  /** When the item caps cut nothing, what is reachable by drawn references is all that is reachable. */
  lemma UncutReachesAll(s: Store, roots: set<Addr>, a: Addr)
    requires forall b | b in s :: Uncut(s[b])
    ensures Reachable(s, roots, a) <==> FullyReachable(s, roots, a)
  {
    hide ShownAddrs, AllAddrs;
    forall b | b in s ensures ShownAddrs(s[b]) == AllAddrs(s[b]) {
      UncutShowsAll(s[b]);
    }
    hide Uncut;
    if Reachable(s, roots, a) {
      var path :| IsPath(s, path) && path[0] in roots && path[|path| - 1] == a;
      assert IsFullPath(s, path);
    }
    if FullyReachable(s, roots, a) {
      var path :| IsFullPath(s, path) && path[0] in roots && path[|path| - 1] == a;
      assert IsPath(s, path);
    }
  }

  lemma RootReachable(s: Store, roots: set<Addr>, a: Addr)
    requires a in s && a in roots
    ensures Reachable(s, roots, a)
  {
    assert IsPath(s, [a]);
  }

  lemma EdgeReachable(s: Store, roots: set<Addr>, a: Addr, b: Addr)
    requires Reachable(s, roots, a) && a in s && b in s && b in ShownAddrs(s[a])
    ensures Reachable(s, roots, b)
  {
    var path :| IsPath(s, path) && path[0] in roots && path[|path| - 1] == a;
    var longer := path + [b];
    assert forall i | 0 <= i < |longer| - 1 :: longer[i] == path[i];
    assert IsPath(s, longer);
  }

  lemma MoreRootsReachable(s: Store, roots: set<Addr>, more: set<Addr>, a: Addr)
    requires Reachable(s, roots, a) && roots <= more
    ensures Reachable(s, more, a)
  {
    var path :| IsPath(s, path) && path[0] in roots && path[|path| - 1] == a;
    assert path[0] in more;
  }

  /** A set holding the roots and closed under drawn references holds all that is reachable. */
  lemma ReachableInClosed(s: Store, roots: set<Addr>, inside: set<Addr>, a: Addr)
    requires roots <= inside
    requires forall b | b in inside && b in s :: ShownAddrs(s[b]) <= inside
    requires Reachable(s, roots, a)
    ensures a in inside
  {
    var path :| IsPath(s, path) && path[0] in roots && path[|path| - 1] == a;
    for i := 0 to |path| - 1
      invariant path[i] in inside
    {
    }
  }

  // ---- one more cell: how the drawings and the edges grow --------------------------

  lemma NothingDrawn(ids: IdMap)
    ensures SlotsOf([], ids) == [] && PairsOf([], ids) == []
    ensures FieldsOf([], ids) == map[] && ClosureOf([], [], ids) == map[]
    ensures ItemAddrs([]) == {} && EntryAddrs([]) == {} && FieldAddrs([]) == {} && CellsAddrs([]) == {}
  {
  }

  lemma SlotsGrow(vs: seq<Value>, i: nat, ids: IdMap)
    requires i < |vs|
    ensures SlotsOf(vs[..i + 1], ids) == SlotsOf(vs[..i], ids) + [SlotOf(vs[i], ids)]
    ensures ItemAddrs(vs[..i + 1]) == ItemAddrs(vs[..i]) + AddrsOf(vs[i])
  {
    assert vs[..i + 1] == vs[..i] + [vs[i]];
    assert vs[..i + 1][..i] == vs[..i];
  }

  lemma PairsGrow(es: seq<(Value, Value)>, i: nat, ids: IdMap)
    requires i < |es|
    ensures PairsOf(es[..i + 1], ids) == PairsOf(es[..i], ids) + [(SlotOf(es[i].0, ids), SlotOf(es[i].1, ids))]
    ensures EntryAddrs(es[..i + 1]) == EntryAddrs(es[..i]) + AddrsOf(es[i].0) + AddrsOf(es[i].1)
  {
    assert es[..i + 1] == es[..i] + [es[i]];
    assert es[..i + 1][..i] == es[..i];
  }

  lemma FieldsGrow(fs: seq<(Option<string>, Value)>, i: nat, ids: IdMap)
    requires i < |fs|
    ensures FieldsOf(fs[..i + 1], ids) ==
            if fs[i].0.None? then FieldsOf(fs[..i], ids)
            else FieldsOf(fs[..i], ids)[fs[i].0.value := SlotOf(fs[i].1, ids)]
    ensures FieldAddrs(fs[..i + 1]) == FieldAddrs(fs[..i]) + (if fs[i].0.None? then {} else AddrsOf(fs[i].1))
  {
    assert fs[..i + 1] == fs[..i] + [fs[i]];
    assert fs[..i + 1][..i] == fs[..i];
  }

  lemma ClosureGrows(names: seq<string>, cells: seq<Option<Value>>, i: nat, ids: IdMap)
    requires i < |names| && i < |cells|
    ensures ClosureOf(names[..i + 1], cells[..i + 1], ids) ==
            ClosureOf(names[..i], cells[..i], ids)[names[i] := CellSlot(cells[i], ids)]
    ensures CellsAddrs(cells[..i + 1]) == CellsAddrs(cells[..i]) + CellAddrs(cells[i])
  {
    assert cells[..i + 1] == cells[..i] + [cells[i]];
    assert cells[..i + 1][..i] == cells[..i] && names[..i + 1][..i] == names[..i];
  }

  // ---- the drawing depends only on the ids of the objects it shows --------------

  ghost predicate Agree(ids: IdMap, ids': IdMap, on: set<Addr>) {
    forall a | a in on :: a in ids && a in ids' && ids[a] == ids'[a]
  }

  lemma {:induction false} FieldsAgree(fs: seq<(Option<string>, Value)>, ids: IdMap, ids': IdMap)
    requires Agree(ids, ids', FieldAddrs(fs))
    ensures FieldsOf(fs, ids) == FieldsOf(fs, ids')
  {
    if fs != [] {
      var rest, last := fs[..|fs| - 1], fs[|fs| - 1];
      assert last in fs;
      assert forall f | f in rest :: f in fs;
      FieldsAgree(rest, ids, ids');
    }
  }

  lemma {:induction false} ClosureAgree(names: seq<string>, cells: seq<Option<Value>>, ids: IdMap, ids': IdMap)
    requires |names| == |cells|
    requires Agree(ids, ids', CellsAddrs(cells))
    ensures ClosureOf(names, cells, ids) == ClosureOf(names, cells, ids')
  {
    if names != [] {
      var n := |names| - 1;
      assert cells[n] in cells;
      assert forall c | c in cells[..n] :: c in cells;
      ClosureAgree(names[..n], cells[..n], ids, ids');
    }
  }

  lemma {:induction false} SlotsAgree(vs: seq<Value>, ids: IdMap, ids': IdMap)
    requires Agree(ids, ids', ItemAddrs(vs))
    ensures SlotsOf(vs, ids) == SlotsOf(vs, ids')
  {
    if vs != [] {
      var rest, last := vs[..|vs| - 1], vs[|vs| - 1];
      assert last in vs;
      assert forall v | v in rest :: v in vs;
      SlotsAgree(rest, ids, ids');
    }
  }

  lemma {:induction false} PairsAgree(es: seq<(Value, Value)>, ids: IdMap, ids': IdMap)
    requires Agree(ids, ids', EntryAddrs(es))
    ensures PairsOf(es, ids) == PairsOf(es, ids')
  {
    if es != [] {
      var rest, last := es[..|es| - 1], es[|es| - 1];
      assert last in es;
      assert forall e | e in rest :: e in es;
      PairsAgree(rest, ids, ids');
    }
  }

  lemma DrawAgree(o: Object, ids: IdMap, ids': IdMap)
    requires Agree(ids, ids', ShownAddrs(o))
    ensures Draw(o, ids) == Draw(o, ids')
  {
    match o.shape
    case Sequence(_, items) => SlotsAgree(items[..Min(MAX_ITEMS, |items|)], ids, ids');
    case Dict(entries) => PairsAgree(entries[..Min(MAX_ITEMS, |entries|)], ids, ids');
    case Function(_, _, names, cells) =>
      var n := Captured(o.shape);
      ClosureAgree(names[..n], cells[..n], ids, ids');
    case Instance(fields) => FieldsAgree(fields[..Min(MAX_VARS, |fields|)], ids, ids');
    case Unreadable =>
  }

  // ---- what a box shows, cell by cell ---------------------------------------------

  /** The cell shows the value: a primitive in place, an object by its id. */
  ghost predicate ShowsValue(slot: Slot, v: Value, ids: IdMap) {
    match v
    case Prim(kind, text) => slot == PrimSlot(kind, text)
    case Obj(a) => a in ids && slot == Ref(ids[a].0)
  }

  /** Of the first `n` fields, `i` is the last with that name. */
  ghost predicate LastField(k: string, i: int, fs: seq<(Option<string>, Value)>, n: nat) {
    0 <= i < n <= |fs| && fs[i].0 == Some(k) && forall j | i < j < n :: fs[j].0 != Some(k)
  }

  /** The fields are the string names among the first `n`, each with the value last given to it. */
  ghost predicate ShowsFields(out: map<string, Slot>, fs: seq<(Option<string>, Value)>, n: nat, ids: IdMap) {
    && n <= |fs|
    && (forall i | 0 <= i < n && fs[i].0.Some? :: fs[i].0.value in out)
    && forall k | k in out :: exists i :: LastField(k, i, fs, n) && ShowsValue(out[k], fs[i].1, ids)
  }

  ghost predicate ShowsCell(slot: Slot, c: Option<Value>, ids: IdMap) {
    if c.Some? then ShowsValue(slot, c.value, ids) else slot == PrimSlot("empty", "(not bound yet)")
  }

  /** Of the first `n` captured names, `i` is the last equal to `k`. */
  ghost predicate LastCaptured(k: string, i: int, names: seq<string>, n: nat) {
    0 <= i < n <= |names| && names[i] == k && forall j | i < j < n :: names[j] != k
  }

  /** The captured names are the first `n`, an empty cell shown as such. */
  ghost predicate ShowsClosure(out: map<string, Slot>, names: seq<string>, cells: seq<Option<Value>>, n: nat,
                               ids: IdMap) {
    && n <= |names| && n <= |cells|
    && (forall i | 0 <= i < n :: names[i] in out)
    && forall k | k in out :: exists i ::
         LastCaptured(k, i, names, n) && i < |cells| && ShowsCell(out[k], cells[i], ids)
  }

  /** `box` is a picture of `o`: which cells, in which order, and whether there were more. */
  ghost predicate Pictures(box: Box, o: Object, ids: IdMap) {
    match o.shape
    case Sequence(kind, items) =>
      && box.ItemsBox? && box.kind == kind && (box.truncated <==> |items| > 30) && |box.items| == Min(30, |items|)
      && forall i | 0 <= i < |box.items| :: ShowsValue(box.items[i], items[i], ids)
    case Dict(entries) =>
      && box.DictBox? && (box.truncated <==> |entries| > 30) && |box.entries| == Min(30, |entries|)
      && forall i | 0 <= i < |box.entries| ::
           ShowsValue(box.entries[i].0, entries[i].0, ids) && ShowsValue(box.entries[i].1, entries[i].1, ids)
    case Function(name, params, names, cells) =>
      && box.FunctionBox? && box.name == name && box.params == params[..Min(30, |params|)]
      && (box.truncated <==> |names| > 60)
      && ShowsClosure(box.closure, names, cells, Min(60, Min(|names|, |cells|)), ids)
    case Instance(fields) =>
      && box.FieldsBox? && box.cls == o.typeName && (box.truncated <==> |fields| > 60)
      && ShowsFields(box.fields, fields, Min(60, |fields|), ids)
    case Unreadable => box == OpaqueBox(o.typeName)
  }

  /** The drawing is such a picture. */
  lemma DrawPictures(o: Object, ids: IdMap)
    requires ShownAddrs(o) <= ids.Keys
    ensures Pictures(Draw(o, ids), o, ids)
  {
    hide ShowsValue, SlotsOf, PairsOf, FieldsOf, ClosureOf, ShowsFields, ShowsClosure;
    match o.shape
    case Sequence(_, items) => SlotsShow(items[..Min(MAX_ITEMS, |items|)], ids);
    case Dict(entries) => PairsShow(entries[..Min(MAX_ITEMS, |entries|)], ids);
    case Function(_, _, names, cells) => ClosureShows(names, cells, Captured(o.shape), ids);
    case Instance(fields) => FieldsShow(fields, Min(MAX_VARS, |fields|), ids);
    case Unreadable =>
  }

  lemma {:induction false} SlotsShow(vs: seq<Value>, ids: IdMap)
    requires ItemAddrs(vs) <= ids.Keys
    ensures |SlotsOf(vs, ids)| == |vs| && forall i | 0 <= i < |vs| :: ShowsValue(SlotsOf(vs, ids)[i], vs[i], ids)
  {
    if vs != [] {
      SlotsShow(vs[..|vs| - 1], ids);
      assert vs[|vs| - 1] in vs;
    }
  }

  lemma {:induction false} PairsShow(es: seq<(Value, Value)>, ids: IdMap)
    requires EntryAddrs(es) <= ids.Keys
    ensures |PairsOf(es, ids)| == |es|
    ensures forall i | 0 <= i < |es| ::
              ShowsValue(PairsOf(es, ids)[i].0, es[i].0, ids) && ShowsValue(PairsOf(es, ids)[i].1, es[i].1, ids)
  {
    if es != [] {
      var n := |es| - 1;
      assert es[..n + 1] == es;
      PairsGrow(es, n, ids);
      PairsShow(es[..n], ids);
      assert AddrsOf(es[n].0) + AddrsOf(es[n].1) <= ids.Keys;
    }
  }

  lemma {:induction false} FieldsShow(fs: seq<(Option<string>, Value)>, n: nat, ids: IdMap)
    requires n <= |fs| && FieldAddrs(fs[..n]) <= ids.Keys
    ensures ShowsFields(FieldsOf(fs[..n], ids), fs, n, ids)
  {
    hide ShowsValue, FieldAddrs, LastField, FieldsOf;
    if n == 0 {
      NothingDrawn(ids);
      assert fs[..n] == [];
    } else {
      FieldsGrow(fs, n - 1, ids);
      FieldsShow(fs, n - 1, ids);
      OneMoreField(FieldsOf(fs[..n - 1], ids), fs, n, ids);
    }
  }

  lemma OneMoreField(out: map<string, Slot>, fs: seq<(Option<string>, Value)>, n: nat, ids: IdMap)
    requires 0 < n <= |fs| && ShowsFields(out, fs, n - 1, ids) && FieldAddrs(fs[..n]) <= ids.Keys
    ensures ShowsFields(if fs[n - 1].0.None? then out else out[fs[n - 1].0.value := SlotOf(fs[n - 1].1, ids)],
            fs, n, ids)
  {
    var new_ := if fs[n - 1].0.None? then out else out[fs[n - 1].0.value := SlotOf(fs[n - 1].1, ids)];
    if fs[n - 1].0.Some? {
      assert fs[n - 1] in fs[..n];
      assert ShowsValue(SlotOf(fs[n - 1].1, ids), fs[n - 1].1, ids);
    }
    hide FieldAddrs, ShowsValue, SlotOf;
    forall k | k in new_ ensures exists i :: LastField(k, i, fs, n) && ShowsValue(new_[k], fs[i].1, ids) {
      if fs[n - 1].0 == Some(k) {
        assert LastField(k, n - 1, fs, n);
      } else {
        var i :| LastField(k, i, fs, n - 1) && ShowsValue(out[k], fs[i].1, ids);
        assert LastField(k, i, fs, n);
      }
    }
  }

  lemma {:induction false} ClosureShows(names: seq<string>, cells: seq<Option<Value>>, n: nat, ids: IdMap)
    requires n <= |names| && n <= |cells| && CellsAddrs(cells[..n]) <= ids.Keys
    ensures ShowsClosure(ClosureOf(names[..n], cells[..n], ids), names, cells, n, ids)
  {
    hide ShowsValue, ShowsCell, CellsAddrs, LastCaptured, ClosureOf;
    if n == 0 {
      NothingDrawn(ids);
      assert names[..n] == [] && cells[..n] == [];
    } else {
      ClosureGrows(names, cells, n - 1, ids);
      ClosureShows(names, cells, n - 1, ids);
      OneMoreCaptured(ClosureOf(names[..n - 1], cells[..n - 1], ids), names, cells, n, ids);
    }
  }

  lemma OneMoreCaptured(out: map<string, Slot>, names: seq<string>, cells: seq<Option<Value>>, n: nat, ids: IdMap)
    requires 0 < n <= |names| && n <= |cells| && ShowsClosure(out, names, cells, n - 1, ids)
    requires CellsAddrs(cells[..n]) <= ids.Keys
    ensures ShowsClosure(out[names[n - 1] := CellSlot(cells[n - 1], ids)], names, cells, n, ids)
  {
    var new_ := out[names[n - 1] := CellSlot(cells[n - 1], ids)];
    assert cells[n - 1] in cells[..n];
    assert ShowsCell(CellSlot(cells[n - 1], ids), cells[n - 1], ids);
    hide CellsAddrs, ShowsCell, CellSlot;
    forall k | k in new_
      ensures exists i :: LastCaptured(k, i, names, n) && i < |cells| && ShowsCell(new_[k], cells[i], ids)
    {
      if names[n - 1] == k {
        assert LastCaptured(k, n - 1, names, n);
      } else {
        var i :| LastCaptured(k, i, names, n - 1) && i < |cells| && ShowsCell(out[k], cells[i], ids);
        assert LastCaptured(k, i, names, n);
      }
    }
  }
}
