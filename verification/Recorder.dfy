/**
  The recording state machine of the Python harness (`_state`, `_record`): what one
  step shows, what every step keeps, and what a whole run promises.
 */
module Recorder {
  import opened Numbers
  import opened Options
  import opened HeapDelta
  import opened PyGraph
  import opened Walk
  import opened Stack

  datatype EventKind = CallEvent | LineEvent | ReturnEvent | ExceptionEvent

  /** One callback of the interpreter: the frame chain (innermost first), the frame's own
      position, the value being returned, and the memory at that moment. */
  datatype Event = Event(kind: EventKind, func: string, file: string, line: int, stdoutLen: nat,
                         frames: seq<Frame>, value: Value, store: Store)

  datatype Step = Step(number: nat, kind: EventKind, func: string, file: string, line: int, stdoutLen: nat,
                       stack: seq<Entry>, retval: Option<Slot>, wire: Wire<Box>)

  ghost predicate Live(e: Event) {
    && Closed(e.store) && FramesLive(e.store, e.frames)
    && (e.value.Obj? ==> e.value.addr in e.store)
  }

  // ---- a faithful drawing of one step -----------------------------------------------

  /** What a step drew: the memory, the objects its variables name, the id of every
      object it touched, and its boxes. */
  datatype View = View(store: Store, roots: set<Addr>, ids: IdMap, heap: map<Id, Box>)

  ghost predicate Faithful(v: View) {
    && Closed(v.store)
    && v.roots <= v.ids.Keys <= v.store.Keys
    && (forall a | a in v.ids :: Reachable(v.store, v.roots, a))
    && NamesApart(v) && BoxesDrawn(v)
    && |v.heap| <= MAX_HEAP_OBJECTS
    && (forall a | a in v.ids :: v.ids[a].0 in v.heap || |v.heap| == MAX_HEAP_OBJECTS)
  }

  /** Every object has its own id, given for its own type. */
  ghost predicate NamesApart(v: View) {
    && (forall a | a in v.ids && a in v.store :: v.ids[a].1 == v.store[a].typeName && v.ids[a].0 > 0)
    && (forall a, b | a in v.ids && b in v.ids && v.ids[a].0 == v.ids[b].0 :: a == b)
  }

  /** Every box is the drawing of the object its id names. */
  ghost predicate BoxesDrawn(v: View) {
    && (forall r | r in v.heap :: exists a :: a in v.ids && v.ids[a].0 == r)
    && (forall a | a in v.ids && a in v.store && v.ids[a].0 in v.heap ::
          ShownAddrs(v.store[a]) <= v.ids.Keys && v.heap[v.ids[a].0] == Draw(v.store[a], v.ids))
  }

  lemma BoxedIsClosed(v: View)
    requires v.ids.Keys <= v.store.Keys && BoxesDrawn(v) && forall a | a in v.ids :: v.ids[a].0 in v.heap
    ensures forall b | b in v.ids :: ShownAddrs(v.store[b]) <= v.ids.Keys
    ensures v.heap.Keys == set a | a in v.ids :: v.ids[a].0
  {
    hide Draw, ShownAddrs;
  }

  /** When the box cap does not bite, what is drawn is exactly what is reachable, and
      every reference leads to a box. */
  lemma DrawsExactlyTheReachable(v: View)
    requires Faithful(v) && |v.heap| < MAX_HEAP_OBJECTS
    ensures forall a :: a in v.ids <==> Reachable(v.store, v.roots, a)
    ensures v.heap.Keys == set a | a in v.ids :: v.ids[a].0
  {
    hide Draw, Closed, NamesApart, BoxesDrawn, ShownAddrs, Reachable;
    BoxedIsClosed(v);
    forall a | Reachable(v.store, v.roots, a) ensures a in v.ids {
      ReachableInClosed(v.store, v.roots, v.ids.Keys, a);
    }
  }

  /** With no cap reached at all, neither of boxes nor of items, every object that the variables
      lead to is drawn, and nothing else. */
  lemma DrawsTheWholeGraph(v: View)
    requires Faithful(v) && |v.heap| < MAX_HEAP_OBJECTS && forall a | a in v.store :: Uncut(v.store[a])
    ensures forall a :: a in v.ids <==> FullyReachable(v.store, v.roots, a)
  {
    hide Faithful, Reachable, FullyReachable, Uncut;
    DrawsExactlyTheReachable(v);
    forall a ensures a in v.ids <==> FullyReachable(v.store, v.roots, a) {
      UncutReachesAll(v.store, v.roots, a);
    }
  }

  /** Two values get the same reference if and only if they are the same object. */
  lemma SameRefIffSameObject(v: View, x: Value, y: Value)
    requires NamesApart(v) && x.Obj? && y.Obj? && x.addr in v.ids && y.addr in v.ids
    ensures SlotOf(x, v.ids) == SlotOf(y, v.ids) <==> x == y
  {
  }

  /** A list that holds itself and is named by a variable: one box that refers to itself. */
  lemma SelfHolderIsFaithful()
    ensures var o := Object("list", Sequence("list", [Obj(7)]));
            Faithful(View(map[7 := o], {7}, map[7 := (1, "list")], map[1 := ItemsBox("list", [Ref(1)], false)]))
  {
    var o := Object("list", Sequence("list", [Obj(7)]));
    var s: Store, ids: IdMap := map[7 := o], map[7 := (1, "list")];
    RootReachable(s, {7}, 7);
    assert [Obj(7)][..1] == [Obj(7)];
    assert ItemAddrs([Obj(7)]) == {7};
    SlotsGrow([Obj(7)], 0, ids);
    assert [Obj(7)][..0] == [] && SlotsOf([], ids) == [];
    assert Draw(o, ids) == ItemsBox("list", [Ref(1)], false);
  }

  // ---- the edges of a box -------------------------------------------------------------

  function SlotRefs(slots: seq<Slot>): set<Id> {
    set x | x in slots && x.Ref? :: x.id
  }

  function PairRefs(pairs: seq<(Slot, Slot)>): set<Id> {
    (set p | p in pairs && p.0.Ref? :: p.0.id) + (set p | p in pairs && p.1.Ref? :: p.1.id)
  }

  function MapRefs(m: map<string, Slot>): set<Id> {
    set k | k in m && m[k].Ref? :: m[k].id
  }

  function BoxRefs(b: Box): set<Id> {
    match b
    case ItemsBox(_, items, _) => SlotRefs(items)
    case DictBox(entries, _) => PairRefs(entries)
    case FunctionBox(_, _, closure, _) => MapRefs(closure)
    case FieldsBox(_, fields, _) => MapRefs(fields)
    case OpaqueBox(_) => {}
  }

  function IdsOf(on: set<Addr>, ids: IdMap): set<Id> {
    set a | a in on && a in ids :: ids[a].0
  }

  /** Attribute and captured names are keys of a Python mapping, so they are distinct. */
  ghost predicate NamesDistinct(o: Object) {
    match o.shape
    case Function(_, _, names, _) => forall i, j | 0 <= i < j < |names| :: names[i] != names[j]
    case Instance(fs) => forall i, j | 0 <= i < j < |fs| && fs[i].0.Some? :: fs[i].0 != fs[j].0
    case _ => true
  }

  lemma {:induction false} SlotRefsAre(vs: seq<Value>, ids: IdMap)
    requires ItemAddrs(vs) <= ids.Keys
    ensures SlotRefs(SlotsOf(vs, ids)) == IdsOf(ItemAddrs(vs), ids)
  {
    if vs != [] {
      var n := |vs| - 1;
      assert vs[..n + 1] == vs;
      SlotsGrow(vs, n, ids);
      SlotRefsAre(vs[..n], ids);
      var rest, last := SlotsOf(vs[..n], ids), SlotOf(vs[n], ids);
      assert SlotRefs(rest + [last]) == SlotRefs(rest) + SlotRefs([last]);
      assert SlotRefs([last]) == IdsOf(AddrsOf(vs[n]), ids);
    } else {
      assert SlotsOf(vs, ids) == [];
    }
  }

  lemma NoRefs(ids: IdMap)
    ensures PairRefs([]) == {} == IdsOf({}, ids)
  {
  }

  lemma PairRefsAppend(pairs: seq<(Slot, Slot)>, last: (Slot, Slot))
    ensures PairRefs(pairs + [last]) == PairRefs(pairs) + PairRefs([last])
  {
  }

  lemma PairRefsOfOne(k: Value, x: Value, ids: IdMap)
    requires AddrsOf(k) + AddrsOf(x) <= ids.Keys
    ensures PairRefs([(SlotOf(k, ids), SlotOf(x, ids))]) == IdsOf(AddrsOf(k) + AddrsOf(x), ids)
  {
  }

  lemma IdsOfUnion(a: set<Addr>, b: set<Addr>, ids: IdMap)
    ensures IdsOf(a + b, ids) == IdsOf(a, ids) + IdsOf(b, ids)
  {
  }

  lemma {:induction false} PairRefsAre(es: seq<(Value, Value)>, ids: IdMap)
    requires EntryAddrs(es) <= ids.Keys
    ensures PairRefs(PairsOf(es, ids)) == IdsOf(EntryAddrs(es), ids)
  {
    hide PairRefs, IdsOf, SlotOf, AddrsOf;
    NoRefs(ids);
    if es != [] {
      var n := |es| - 1;
      assert es[..n + 1] == es;
      PairsGrow(es, n, ids);
      PairRefsAre(es[..n], ids);
      var rest, last := PairsOf(es[..n], ids), (SlotOf(es[n].0, ids), SlotOf(es[n].1, ids));
      PairRefsAppend(rest, last);
      PairRefsOfOne(es[n].0, es[n].1, ids);
      var more := AddrsOf(es[n].0) + AddrsOf(es[n].1);
      IdsOfUnion(EntryAddrs(es[..n]), more, ids);
      assert EntryAddrs(es) == EntryAddrs(es[..n]) + more;
    } else {
      assert PairsOf(es, ids) == [] && EntryAddrs(es) == {};
    }
  }

  lemma {:induction false} FieldNames(fs: seq<(Option<string>, Value)>, ids: IdMap)
    ensures forall k | k in FieldsOf(fs, ids) :: exists i :: 0 <= i < |fs| && fs[i].0 == Some(k)
  {
    if fs != [] {
      var n := |fs| - 1;
      FieldNames(fs[..n], ids);
      forall k | k in FieldsOf(fs, ids) ensures exists i :: 0 <= i < |fs| && fs[i].0 == Some(k) {
        if fs[n].0 != Some(k) {
          var i :| 0 <= i < n && fs[..n][i].0 == Some(k);
          assert fs[i].0 == Some(k);
        }
      }
    }
  }

  lemma MapRefsInsert(m: map<string, Slot>, k: string, x: Slot)
    requires k !in m
    ensures MapRefs(m[k := x]) == MapRefs(m) + SlotRefs([x])
  {
    var m' := m[k := x];
    assert k in m' && forall j | j in m :: j in m' && m'[j] == m[j];
  }

  lemma {:induction false} FieldRefsAre(fs: seq<(Option<string>, Value)>, ids: IdMap)
    requires FieldAddrs(fs) <= ids.Keys
    requires forall i, j | 0 <= i < j < |fs| && fs[i].0.Some? :: fs[i].0 != fs[j].0
    ensures MapRefs(FieldsOf(fs, ids)) == IdsOf(FieldAddrs(fs), ids)
  {
    if fs != [] {
      var n := |fs| - 1;
      assert fs[..n + 1] == fs;
      FieldsGrow(fs, n, ids);
      FieldRefsAre(fs[..n], ids);
      if fs[n].0.Some? {
        var rest, last := FieldsOf(fs[..n], ids), SlotOf(fs[n].1, ids);
        FieldNames(fs[..n], ids);
        assert fs[n].0.value !in rest;
        MapRefsInsert(rest, fs[n].0.value, last);
        assert SlotRefs([last]) == IdsOf(AddrsOf(fs[n].1), ids);
      }
    }
  }

  lemma {:induction false} ClosureNames(names: seq<string>, cells: seq<Option<Value>>, ids: IdMap)
    requires |names| == |cells|
    ensures forall k | k in ClosureOf(names, cells, ids) :: k in names
  {
    if names != [] {
      ClosureNames(names[..|names| - 1], cells[..|names| - 1], ids);
    }
  }

  lemma {:induction false} ClosureRefsAre(names: seq<string>, cells: seq<Option<Value>>, ids: IdMap)
    requires |names| == |cells| && CellsAddrs(cells) <= ids.Keys
    requires forall i, j | 0 <= i < j < |names| :: names[i] != names[j]
    ensures MapRefs(ClosureOf(names, cells, ids)) == IdsOf(CellsAddrs(cells), ids)
  {
    if names != [] {
      var n := |names| - 1;
      assert names[..n + 1] == names && cells[..n + 1] == cells;
      ClosureGrows(names, cells, n, ids);
      ClosureRefsAre(names[..n], cells[..n], ids);
      ClosureNames(names[..n], cells[..n], ids);
      var last := CellSlot(cells[n], ids);
      MapRefsInsert(ClosureOf(names[..n], cells[..n], ids), names[n], last);
      assert SlotRefs([last]) == IdsOf(CellAddrs(cells[n]), ids);
    }
  }

  /** The references in a box are exactly the ids of the objects its object shows. */
  lemma DrawRefs(o: Object, ids: IdMap)
    requires ShownAddrs(o) <= ids.Keys && NamesDistinct(o)
    ensures BoxRefs(Draw(o, ids)) == IdsOf(ShownAddrs(o), ids)
  {
    match o.shape
    case Sequence(_, items) => SlotRefsAre(items[..Min(MAX_ITEMS, |items|)], ids);
    case Dict(entries) => PairRefsAre(entries[..Min(MAX_ITEMS, |entries|)], ids);
    case Function(_, _, names, cells) =>
      var n := Captured(o.shape);
      ClosureRefsAre(names[..n], cells[..n], ids);
    case Instance(fields) => FieldRefsAre(fields[..Min(MAX_VARS, |fields|)], ids);
    case Unreadable =>
  }

  /** The drawing is isomorphic to the object graph: there is an arrow between two boxes
      if and only if the one object shows the other; when the item caps cut nothing off
      the first object, if and only if it refers to the other. */
  lemma EdgesMirror(v: View, a: Addr, b: Addr)
    requires v.ids.Keys <= v.store.Keys && NamesApart(v) && BoxesDrawn(v)
    requires a in v.ids && b in v.ids && v.ids[a].0 in v.heap && NamesDistinct(v.store[a])
    ensures v.ids[b].0 in BoxRefs(v.heap[v.ids[a].0]) <==> b in ShownAddrs(v.store[a])
    ensures Uncut(v.store[a]) ==> (v.ids[b].0 in BoxRefs(v.heap[v.ids[a].0]) <==> b in AllAddrs(v.store[a]))
  {
    DrawRefs(v.store[a], v.ids);
    if Uncut(v.store[a]) {
      UncutShowsAll(v.store[a]);
    }
    hide Draw, ShownAddrs, AllAddrs, Reachable, BoxRefs;
  }

  // ---- from the walk to the view --------------------------------------------------------

  function Restrict(ids: IdMap, on: set<Addr>): IdMap {
    map a | a in ids && a in on :: ids[a]
  }

  ghost predicate AllFilled(heap: map<Id, Option<Box>>) {
    forall r | r in heap :: heap[r].Some?
  }

  function Filled(heap: map<Id, Option<Box>>): map<Id, Box> {
    map r | r in heap && heap[r].Some? :: heap[r].value
  }

  function ViewOf(s: Store, w: WalkState): View {
    View(s, w.roots, Restrict(w.idmap, w.touched), Filled(w.heap))
  }

  lemma FilledSize(heap: map<Id, Option<Box>>)
    requires AllFilled(heap)
    ensures Filled(heap).Keys == heap.Keys && |Filled(heap)| == |heap|
  {
    assert Filled(heap).Keys == heap.Keys;
    assert |Filled(heap).Keys| == |heap.Keys|;
  }

  lemma WalkIsFaithful(s: Store, w: WalkState)
    requires Inv(s, w, {}) && AllFilled(w.heap) && w.roots <= w.touched
    ensures Faithful(ViewOf(s, w))
  {
    hide Draw, ShownAddrs, Reachable, QueueOk;
    var v := ViewOf(s, w);
    FilledSize(w.heap);
    assert v.ids.Keys == w.touched;
    forall r | r in v.heap ensures exists a :: a in v.ids && v.ids[a].0 == r {
      assert SlotOk(s, w, r);
      assert w.names[r].0 in v.ids;
    }
    forall a | a in v.ids && a in v.store && v.ids[a].0 in v.heap
      ensures ShownAddrs(v.store[a]) <= v.ids.Keys && v.heap[v.ids[a].0] == Draw(v.store[a], v.ids)
    {
      assert SlotOk(s, w, v.ids[a].0);
      DrawAgree(v.store[a], w.idmap, v.ids);
    }
  }

  // ---- the run -------------------------------------------------------------------------

  /** Every id of the view is registered under the object it names. */
  ghost predicate Named(v: View, names: Names) {
    forall a | a in v.ids :: v.ids[a].0 in names && names[v.ids[a].0] == (a, v.ids[a].1)
  }

  /** An object boxed at one step and met at the next keeps its id. */
  ghost predicate Continues(v: View, w: View) {
    forall a | a in v.ids && a in w.ids && v.ids[a].0 in v.heap && v.ids[a].1 == w.ids[a].1 ::
      w.ids[a] == v.ids[a]
  }

  /** An id is either on a box of the step before or has never been used. */
  ghost predicate NoneRevived(views: seq<View>, w: View)
    requires views != []
  {
    forall a | a in w.ids ::
      w.ids[a].0 in views[|views| - 1].heap
      || forall j, b | 0 <= j < |views| && b in views[j].ids :: views[j].ids[b].0 != w.ids[a].0
  }

  /** The ids of a step after these. */
  ghost predicate Follows(views: seq<View>, w: View) {
    views != [] ==> Continues(views[|views| - 1], w) && NoneRevived(views, w)
  }

  function Roots(e: Event): set<Addr> {
    FrameAddrs(ShownFrames(e.frames)) + (if e.kind.ReturnEvent? then AddrsOf(e.value) else {})
  }

  /** The step is the drawing of the event: its variables and returned value are the
      references the view gives them, and the view starts from exactly those. */
  ghost predicate Shows(st: Step, e: Event, v: View, i: nat) {
    && st.number == i && st.kind == e.kind && st.stdoutLen == e.stdoutLen
    && v.store == e.store && v.roots == Roots(e)
    && st.stack == EntriesOf(ShownFrames(e.frames), v.ids)
    && st.retval == (if e.kind.ReturnEvent? then Some(SlotOf(e.value, v.ids)) else None)
    && (st.func, st.file, st.line) == Position(e, st.stack)
  }

  // ---- the step and its event, without the functions that draw it ------------------------

  /** The position is that of the innermost frame of the student's, else the event's own. */
  ghost predicate Located(st: Step, e: Event) {
    && (forall i | 0 <= i < |e.frames| && e.frames[i].student && forall j | 0 <= j < i :: !e.frames[j].student ::
          st.func == e.frames[i].func && st.file == e.frames[i].file && st.line == e.frames[i].line)
    && ((forall i | 0 <= i < |e.frames| :: !e.frames[i].student) ==>
          st.func == e.func && st.file == e.file && st.line == e.line)
  }

  /** Position, stack, returned value and boxes are read off the event, given the ids. */
  ghost predicate Depicts(st: Step, e: Event, v: View) {
    && Located(st, e)
    && ShowsStack(st.stack, e.frames, v.ids)
    && (st.retval.Some? <==> e.kind.ReturnEvent?)
    && (st.retval.Some? ==> ShowsValue(st.retval.value, e.value, v.ids))
    && (forall a | a in v.ids && a in e.store && v.ids[a].0 in v.heap ::
          Pictures(v.heap[v.ids[a].0], e.store[a], v.ids))
  }

  lemma ShowsDepicts(st: Step, e: Event, v: View, i: nat)
    requires Faithful(v) && Shows(st, e, v, i)
    ensures Depicts(st, e, v)
  {
    hide Reachable, ShowsStack, ShownFrames, EntriesOf, Closed, NamesApart, ShowsValue, Pictures, Draw, FrameAddrs;
    ShownIsTheStack(e.frames, v.ids);
    assert Located(st, e) by {
      StackLocates(st, e, v.ids);
    }
    if e.kind.ReturnEvent? {
      ReturnedIsShown(e, v);
    }
    forall a | a in v.ids && a in e.store && v.ids[a].0 in v.heap
      ensures Pictures(v.heap[v.ids[a].0], e.store[a], v.ids)
    {
      DrawPictures(e.store[a], v.ids);
    }
  }

  lemma ReturnedIsShown(e: Event, v: View)
    requires Roots(e) <= v.ids.Keys && e.kind.ReturnEvent?
    ensures ShowsValue(SlotOf(e.value, v.ids), e.value, v.ids)
  {
  }

  lemma StackLocates(st: Step, e: Event, ids: IdMap)
    requires ShowsStack(st.stack, e.frames, ids) && (st.func, st.file, st.line) == Position(e, st.stack)
    ensures Located(st, e)
  {
    hide ShowsVars;
    var at :| Places(at, e.frames, (f: Frame) => f.student) && |st.stack| == Min(25, |at|)
              && forall k | 0 <= k < |st.stack| ::
                   at[k] < |e.frames| && ShowsFrame(st.stack[|st.stack| - 1 - k], e.frames[at[k]], ids);
    if at == [] {
      forall i | 0 <= i < |e.frames| ensures !e.frames[i].student {
        assert i !in at;
      }
    } else {
      assert at[0] in at;
      assert ShowsFrame(st.stack[|st.stack| - 1], e.frames[at[0]], ids);
      forall i | 0 <= i < |e.frames| && e.frames[i].student && forall j | 0 <= j < i :: !e.frames[j].student
        ensures i == at[0]
      {
        assert i in at;
      }
    }
  }

  function Last<T>(xs: seq<T>): T
    requires xs != []
  {
    xs[|xs| - 1]
  }

  function Wires(steps: seq<Step>): seq<Wire<Box>> {
    seq(|steps|, i requires 0 <= i < |steps| => steps[i].wire)
  }

  function Heaps(views: seq<View>): seq<map<Id, Box>> {
    seq(|views|, i requires 0 <= i < |views| => views[i].heap)
  }

  ghost predicate AllNamed(views: seq<View>, names: Names) {
    forall i | 0 <= i < |views| :: Named(views[i], names)
  }

  /** What a recorded trace promises about the events it recorded. */
  ghost predicate TraceOk(steps: seq<Step>, events: seq<Event>, views: seq<View>, names: Names) {
    && |steps| == |events| == |views|
    && Exact(Wires(steps), Heaps(views))
    && AllNamed(views, names)
    && (forall i | 0 <= i < |views| :: Faithful(views[i]) && Shows(steps[i], events[i], views[i], i))
    && (forall i | 0 <= i < |views| :: Follows(views[..i], views[i]))
  }

  lemma TraceGrows(steps: seq<Step>, events: seq<Event>, views: seq<View>, names: Names, names': Names,
                   st: Step, e: Event, v: View)
    requires TraceOk(steps, events, views, names)
    requires forall r | r in names :: r in names' && names'[r] == names[r]
    requires Faithful(v) && Named(v, names') && Shows(st, e, v, |steps|)
    requires st.wire == Encode(LastHeap(Heaps(views)), v.heap)
    requires Follows(views, v)
    ensures TraceOk(steps + [st], events + [e], views + [v], names')
  {
    hide Faithful, Shows, Follows, Exact;
    ExactAppend(Wires(steps), Heaps(views), v.heap);
    assert Wires(steps + [st]) == Wires(steps) + [st.wire];
    assert Heaps(views + [v]) == Heaps(views) + [v.heap];
    var more := views + [v];
    forall i | 0 <= i < |more|
      ensures Named(more[i], names') && Faithful(more[i]) && Shows((steps + [st])[i], (events + [e])[i], more[i], i)
    {
      if i < |views| {
        assert Named(views[i], names);
      }
    }
    forall i | 0 <= i < |more| ensures Follows(more[..i], more[i]) {
      assert more[..i] == views[..i];
      if i == |views| {
        assert views[..i] == views;
      }
    }
  }

  /** Over a whole trace: one id never names two (address, type) pairs, at any two steps. */
  lemma IdNamesOneObject(views: seq<View>, names: Names, i: nat, j: nat, a: Addr, b: Addr)
    requires AllNamed(views, names) && i < |views| && j < |views|
    requires a in views[i].ids && b in views[j].ids && views[i].ids[a].0 == views[j].ids[b].0
    ensures a == b && views[i].ids[a] == views[j].ids[b]
  {
    assert Named(views[i], names) && Named(views[j], names);
  }

  /** An id whose box has gone is not used again, so a reused address never inherits a box. */
  lemma {:induction false} GoneStaysGone(steps: seq<Step>, events: seq<Event>, views: seq<View>, names: Names,
                                         i: nat, j: nat, k: nat, b: Addr, a: Addr)
    requires TraceOk(steps, events, views, names) && i < j < k < |views|
    requires b in views[i].ids && views[i].ids[b].0 !in views[j].heap
    requires a in views[k].ids
    ensures views[k].ids[a].0 != views[i].ids[b].0
    decreases k
  {
    hide Faithful, Shows, Continues, Exact;
    assert Follows(views[..k], views[k]);
    var r := views[k].ids[a].0;
    if r == views[i].ids[b].0 {
      assert views[..k][i] == views[i];
      assert r in views[k - 1].heap;
      var c := BoxHasAName(steps, events, views, names, k - 1, r);
      GoneStaysGone(steps, events, views, names, i, j, k - 1, b, c);
    }
  }

  lemma BoxHasAName(steps: seq<Step>, events: seq<Event>, views: seq<View>, names: Names, k: nat, r: Id)
      returns (a: Addr)
    requires TraceOk(steps, events, views, names) && k < |views| && r in views[k].heap
    ensures a in views[k].ids && views[k].ids[a].0 == r
  {
    hide NamesApart, Reachable, Shows, Exact, Follows, Closed;
    assert Faithful(views[k]);
    a :| a in views[k].ids && views[k].ids[a].0 == r;
  }

  /** Decoding what was sent gives, at every step of every prefix of the trace, exactly
      the boxes drawn at that step. */
  lemma DecodesEveryPrefix(steps: seq<Step>, events: seq<Event>, views: seq<View>, names: Names, k: nat)
    requires TraceOk(steps, events, views, names) && k <= |steps|
    ensures Decoded(true, Wires(steps[..k])) == Heaps(views[..k])
  {
    hide Faithful, Shows, Exact;
    ExactPrefixDecodes(Wires(steps), Heaps(views), k);
    assert Wires(steps)[..k] == Wires(steps[..k]);
    assert Heaps(views)[..k] == Heaps(views[..k]);
  }

  /** The size of all recorded steps together. */
  function Total(steps: seq<Step>, sizeOf: Step -> nat): nat {
    if steps == [] then 0 else Total(steps[..|steps| - 1], sizeOf) + sizeOf(steps[|steps| - 1])
  }

  lemma OneMoreTotal(steps: seq<Step>, st: Step, sizeOf: Step -> nat)
    ensures Total(steps + [st], sizeOf) == Total(steps, sizeOf) + sizeOf(st)
  {
    assert (steps + [st])[..|steps|] == steps;
  }

  /** The step that would come next: the faithful drawing of the event, continuing the ids of
      the last step and encoded against its heap. */
  ghost predicate NextStep(st: Step, v: View, steps: seq<Step>, views: seq<View>, names: Names, e: Event) {
    && Faithful(v) && Named(v, names) && Shows(st, e, v, |steps|)
    && st.wire == Encode(LastHeap(Heaps(views)), v.heap)
    && Follows(views, v)
  }

  /** The next step does not fit any more. */
  ghost predicate TooBig(steps: seq<Step>, views: seq<View>, names: Names, e: Event, sizeOf: Step -> nat,
                         maxBytes: nat) {
    exists st, v :: NextStep(st, v, steps, views, names, e) && Total(steps, sizeOf) + sizeOf(st) > maxBytes
  }

  class Recorder {
    const maxSteps: nat
    const maxBytes: nat
    /** The size of a step's JSON text, whatever it is. */
    const sizeOf: Step -> nat

    var steps: seq<Step>
    var bytes: nat
    var stepLimitHit: bool
    var bytesLimitHit: bool
    var stopped: bool
    var idmap: IdMap
    var counter: Id
    var prevHeap: Option<map<Id, Box>>
    ghost var names: Names
    ghost var events: seq<Event>
    ghost var views: seq<View>

    ghost predicate Valid()
      reads this
    {
      && TraceOk(steps, events, views, names)
      && IdsOk(idmap, counter, names)
      && prevHeap == LastHeap(Heaps(views))
      && |steps| <= maxSteps && bytes == Total(steps, sizeOf) <= maxBytes
      && (!stopped && views != [] ==> Pruned(idmap, Last(views)))
      && (stopped == (stepLimitHit || bytesLimitHit))
      && (stepLimitHit ==> |steps| == maxSteps)
    }

    constructor (maxSteps: nat, maxBytes: nat, sizeOf: Step -> nat)
      ensures Valid() && steps == [] && events == [] && !stopped && counter == 0 && bytes == 0
      ensures this.maxSteps == maxSteps && this.maxBytes == maxBytes && this.sizeOf == sizeOf
    {
      this.maxSteps, this.maxBytes, this.sizeOf := maxSteps, maxBytes, sizeOf;
      steps, bytes, stepLimitHit, bytesLimitHit, stopped := [], 0, false, false, false;
      idmap, counter, prevHeap := map[], 0, None;
      names, events, views := map[], [], [];
    }

    /** `_record`.  A step refused by the byte cap leaves the trace and the base of the
        next delta as they were; an accepted one draws the event faithfully, becomes the
        base, and prunes the id map to the boxes it drew. */
    method Record(e: Event)
      requires Valid() && Live(e)
      modifies this
      ensures Valid()
      ensures old(counter) <= counter
      ensures stopped ==> steps == old(steps) && events == old(events) && views == old(views)
                          && prevHeap == old(prevHeap) && bytes == old(bytes)
      ensures !stopped ==> !old(stopped) && |old(steps)| < maxSteps && |steps| == |old(steps)| + 1
                           && old(steps) <= steps && old(views) <= views && events == old(events) + [e]
                           && bytes == old(bytes) + sizeOf(Last(steps))
      ensures !old(stopped) ==> stepLimitHit == (|old(steps)| >= maxSteps)
      ensures stopped && !old(stopped) && bytesLimitHit ==> TooBig(steps, views, names, e, sizeOf, maxBytes)
      ensures old(stopped) ==> bytesLimitHit == old(bytesLimitHit) && names == old(names)
      // The recorded step, told without the functions that draw it; the id map keeps its boxes only.
      ensures !stopped ==> views != [] && Depicts(Last(steps), e, Last(views)) && Pruned(idmap, Last(views))
    {
      hide TraceOk, IdsOk, Pruned, Shows, Depicts, Faithful, Named, Follows, Grows, Encode, Live, LastHeap,
           Heaps, Prune;
      if stopped {
        return;
      }
      if |steps| >= maxSteps {
        stepLimitHit := true;
        stopped := true;
        return;
      }
      var w, st, heap, view := Draft(e);
      TraceKeepsNames(steps, events, views, names, w.names);
      idmap, counter, names := w.idmap, w.counter, w.names;
      if bytes + sizeOf(st) > maxBytes {
        assert NextStep(st, view, steps, views, names, e);
        bytesLimitHit := true;
        stopped := true;
        return;
      }
      ShowsDepicts(st, e, view, |steps|);
      Accept(st, heap, e, view);
    }

    /** The step enters the trace: its heap becomes the base of the next delta and the id
        map is pruned to the objects it boxed. */
    method Accept(st: Step, heap: map<Id, Box>, ghost e: Event, ghost view: View)
      requires TraceOk(steps, events, views, names) && prevHeap == LastHeap(Heaps(views))
      requires !stopped && !stepLimitHit && !bytesLimitHit && |steps| < maxSteps
      requires bytes == Total(steps, sizeOf) && bytes + sizeOf(st) <= maxBytes
      requires Faithful(view) && Shows(st, e, view, |steps|) && Named(view, names)
      requires heap == view.heap && st.wire == Encode(LastHeap(Heaps(views)), heap)
      requires Follows(views, view)
      requires IdsOk(Prune(idmap, heap), counter, names) && Pruned(Prune(idmap, heap), view)
      modifies `bytes, `steps, `prevHeap, `idmap, `views, `events
      ensures Valid() && !stopped
      ensures steps == old(steps) + [st] && bytes == old(bytes) + sizeOf(st) && events == old(events) + [e]
      ensures views == old(views) + [view] && prevHeap == Some(heap) && idmap == Prune(old(idmap), heap)
    {
      hide TraceOk, IdsOk, Pruned, Shows, Faithful, Named, Follows, Encode, LastHeap, Heaps, Prune, Total;
      bytes := bytes + sizeOf(st);
      OneMoreTotal(steps, st, sizeOf);
      TraceGrows(steps, events, views, names, names, st, e, view);
      steps := steps + [st];
      prevHeap := Some(heap);
      RecordedHeap(views, view);
      idmap := Prune(idmap, heap);
      views := views + [view];
      events := events + [e];
    }

    /** The step an event would add, with the walk that drew it; nothing is recorded yet. */
    method Draft(e: Event) returns (w: Walker, st: Step, heap: map<Id, Box>, ghost view: View)
      requires Valid() && Live(e)
      requires !stopped
      ensures fresh(w)
      ensures Faithful(view) && Shows(st, e, view, |steps|) && Named(view, w.names)
      ensures heap == view.heap && st.wire == Encode(LastHeap(Heaps(views)), heap)
      ensures Follows(views, view)
      ensures Depicts(st, e, view)
      ensures IdsOk(w.idmap, w.counter, w.names) && counter <= w.counter && Grows(names, w.names, counter)
      ensures forall r | r in names :: r in w.names && w.names[r] == names[r]
      ensures IdsOk(Prune(w.idmap, heap), w.counter, w.names) && Pruned(Prune(w.idmap, heap), view)
    {
      hide IdsOk, Pruned, Shows, Depicts, Faithful, Named, Follows, Grows, Encode, Later, Serialized, ViewOf,
           Filled, EntriesOf, ShownFrames, SlotOf, Live, Position, Start, Heaps, Prune;
      var stack, retval;
      w, stack, retval := Serialize(e, idmap, counter, names);
      heap := Filled(w.heap);
      view := ViewOf(e.store, w.St());
      var (func, file, line) := Position(e, stack);
      st := Step(|steps|, e.kind, func, file, line, e.stdoutLen, stack, retval, Encode(prevHeap, heap));
      SerializedShows(e, w.St(), st, |steps|);
      ShowsDepicts(st, e, view, |steps|);
      SerializedContinues(idmap, counter, names, views, w.St(), e);
      PruningKeepsIds(w.St(), e);
    }
  }

  function Prune(idmap: IdMap, heap: map<Id, Box>): IdMap {
    map a | a in idmap && idmap[a].0 in heap :: idmap[a]
  }

  /** The position a step reports: the innermost shown frame, or the frame itself. */
  function Position(e: Event, stack: seq<Entry>): (string, string, int) {
    if stack == [] then (e.func, e.file, e.line)
    else (Last(stack).func, Last(stack).file, Last(stack).line)
  }

  /** After an accepted step the id map has exactly the objects boxed in that step. */
  ghost predicate Pruned(idmap: IdMap, v: View) {
    && (forall a :: a in idmap <==> a in v.ids && v.ids[a].0 in v.heap)
    && forall a | a in idmap && a in v.ids :: idmap[a] == v.ids[a]
  }

  /** Both phases of the walk, one after the other: ids of touched objects are fixed. */
  ghost predicate Later(u: WalkState, w: WalkState) {
    && u.touched <= w.touched && u.roots <= w.roots && u.counter <= w.counter
    && Agree(u.idmap, w.idmap, u.touched) && KeepsIds(u, w) && Grows(u.names, w.names, u.counter)
  }

  lemma RootedIsLater(u: WalkState, w: WalkState)
    requires AdvancesRooted(u, w)
    ensures Later(u, w)
  {
  }

  lemma DrainsIsLater(u: WalkState, w: WalkState)
    requires Drains(u, w)
    ensures Later(u, w) && u.roots == w.roots && u.touched <= w.touched
  {
  }

  lemma LaterTransitive(u: WalkState, v: WalkState, w: WalkState)
    requires Later(u, v) && Later(v, w)
    ensures Later(u, w)
  {
    KeepsIdsTransitive(u, v, w);
  }

  ghost function Start(idmap: IdMap, counter: Id, names: Names): WalkState {
    WalkState(idmap, counter, map[], [], names, {}, {})
  }

  lemma StartIsInv(s: Store, idmap: IdMap, counter: Id, names: Names)
    requires Closed(s) && IdsOk(idmap, counter, names)
    ensures Inv(s, Start(idmap, counter, names), {})
  {
  }

  /** The walk of one event: the stack, a drain, and for a return its value and a second
      drain, which may add boxes but changes none. */
  method Serialize(e: Event, idmap: IdMap, counter: Id, ghost names: Names)
      returns (w: Walker, stack: seq<Entry>, retval: Option<Slot>)
    requires Live(e) && IdsOk(idmap, counter, names)
    ensures fresh(w) && Serialized(e, w.St()) && Later(Start(idmap, counter, names), w.St())
    ensures stack == EntriesOf(ShownFrames(e.frames), w.idmap)
    ensures retval == if e.kind.ReturnEvent? then Some(SlotOf(e.value, w.idmap)) else None
  {
    hide Inv, IdsOk, FramesLive, Closed, AdvancesRooted, Drains, Later, SlotOf, EntriesOf, ShownFrames;
    StartIsInv(e.store, idmap, counter, names);
    w := new Walker(idmap, counter, names);
    ghost var s0 := w.St();
    stack := BuildStack(w, e.store, e.frames);
    ghost var s1 := w.St();
    RootedIsLater(s0, s1);
    w.DrainHeap(e.store);
    ghost var s2 := w.St();
    DrainsIsLater(s1, s2);
    LaterTransitive(s0, s1, s2);
    StackStays(s1, s2, e);
    retval := None;
    if e.kind.ReturnEvent? {
      var slot := RootRef(w, e.store, e.value);
      ghost var s3 := w.St();
      RootedIsLater(s2, s3);
      w.DrainHeap(e.store);
      DrainsIsLater(s3, w.St());
      ValueStays(s3, w.St(), e.value);
      LaterTransitive(s2, s3, w.St());
      LaterTransitive(s0, s2, w.St());
      StackStays(s2, w.St(), e);
      retval := Some(slot);
    }
  }

  ghost predicate Serialized(e: Event, w: WalkState) {
    && Inv(e.store, w, {}) && AllFilled(w.heap)
    && w.roots == Roots(e) && w.roots <= w.touched
  }

  lemma StackStays(u: WalkState, w: WalkState, e: Event)
    requires Later(u, w) && FrameAddrs(ShownFrames(e.frames)) <= u.touched
    ensures EntriesOf(ShownFrames(e.frames), w.idmap) == EntriesOf(ShownFrames(e.frames), u.idmap)
    ensures FrameAddrs(ShownFrames(e.frames)) <= w.touched && u.touched <= w.touched
  {
    EntriesAgree(ShownFrames(e.frames), u.idmap, w.idmap);
  }

  lemma ValueStays(u: WalkState, w: WalkState, v: Value)
    requires Later(u, w) && AddrsOf(v) <= u.touched
    ensures SlotOf(v, w.idmap) == SlotOf(v, u.idmap) && u.touched <= w.touched
  {
  }

  lemma SerializedShows(e: Event, w: WalkState, st: Step, i: nat)
    requires Serialized(e, w)
    requires st.number == i && st.kind == e.kind && st.stdoutLen == e.stdoutLen
    requires st.stack == EntriesOf(ShownFrames(e.frames), w.idmap)
    requires st.retval == (if e.kind.ReturnEvent? then Some(SlotOf(e.value, w.idmap)) else None)
    requires (st.func, st.file, st.line) == Position(e, st.stack)
    ensures Faithful(ViewOf(e.store, w)) && Shows(st, e, ViewOf(e.store, w), i)
    ensures Named(ViewOf(e.store, w), w.names) && IdsOk(w.idmap, w.counter, w.names)
  {
    hide Faithful, Reachable, SlotOk, Draw, QueueOk, Closed;
    WalkIsFaithful(e.store, w);
    var v := ViewOf(e.store, w);
    EntriesAgree(ShownFrames(e.frames), w.idmap, v.ids);
  }

  lemma SerializedContinues(idmap: IdMap, counter: Id, names: Names, views: seq<View>, w: WalkState, e: Event)
    requires Later(Start(idmap, counter, names), w)
    requires IdsOk(idmap, counter, names) && AllNamed(views, names)
    requires views != [] ==> Pruned(idmap, Last(views))
    ensures Follows(views, ViewOf(e.store, w))
    ensures counter <= w.counter && Grows(names, w.names, counter)
    ensures forall r | r in names :: r in w.names && w.names[r] == names[r]
  {
    assert KeepsIds(Start(idmap, counter, names), w);
  }

  lemma TraceKeepsNames(steps: seq<Step>, events: seq<Event>, views: seq<View>, names: Names, names': Names)
    requires TraceOk(steps, events, views, names)
    requires forall r | r in names :: r in names' && names'[r] == names[r]
    ensures TraceOk(steps, events, views, names')
  {
    hide Faithful, Shows, Follows, Exact;
  }

  lemma RecordedHeap(views: seq<View>, v: View)
    ensures LastHeap(Heaps(views + [v])) == Some(v.heap)
  {
  }

  lemma PruningKeepsIds(w: WalkState, e: Event)
    requires Serialized(e, w)
    ensures var pruned := Prune(w.idmap, Filled(w.heap));
            IdsOk(pruned, w.counter, w.names) && Pruned(pruned, ViewOf(e.store, w))
    ensures ViewOf(e.store, w).heap == Filled(w.heap)
  {
    hide Draw, ShownAddrs, Reachable, QueueOk, Closed;
    forall a | a in w.idmap && w.idmap[a].0 in w.heap ensures a in w.touched {
      assert SlotOk(e.store, w, w.idmap[a].0);
    }
  }

  /** A whole run: the recorded steps are the drawings of the first events, in order, and
      it falls short of all of them only because a cap was reached. */
  method RunTrace(events: seq<Event>, maxSteps: nat, maxBytes: nat, sizeOf: Step -> nat)
      returns (steps: seq<Step>, bytesLimitHit: bool, ghost views: seq<View>, ghost names: Names)
    requires forall e | e in events :: Live(e)
    ensures |steps| <= |events| && |steps| <= maxSteps
    ensures TraceOk(steps, events[..|steps|], views, names)
    ensures Decoded(true, Wires(steps)) == Heaps(views)
    ensures |steps| < |events| ==> |steps| == maxSteps || bytesLimitHit
    ensures Total(steps, sizeOf) <= maxBytes
    ensures bytesLimitHit ==> |steps| < |events| && TooBig(steps, views, names, events[|steps|], sizeOf, maxBytes)
  {
    hide TraceOk, Live, IdsOk, Pruned, Decoded, Wires, Heaps, Grows, Faithful, Shows, Total, TooBig;
    var rec := new Recorder(maxSteps, maxBytes, sizeOf);
    for i := 0 to |events|
      invariant rec.Valid() && fresh(rec) && rec.maxSteps == maxSteps && rec.maxBytes == maxBytes
                && rec.sizeOf == sizeOf
      invariant rec.bytesLimitHit ==>
                  |rec.steps| < i && TooBig(rec.steps, rec.views, rec.names, events[|rec.steps|], sizeOf, maxBytes)
      invariant |rec.steps| <= i && rec.events == events[..|rec.steps|]
      invariant !rec.stopped ==> |rec.steps| == i
    {
      assert events[i] in events;
      rec.Record(events[i]);
    }
    steps, bytesLimitHit, views, names := rec.steps, rec.bytesLimitHit, rec.views, rec.names;
    assert steps[..|steps|] == steps;
    TraceLengths(steps, rec.events, views, names);
    DecodesEveryPrefix(steps, rec.events, views, names, |steps|);
  }

  lemma TraceLengths(steps: seq<Step>, events: seq<Event>, views: seq<View>, names: Names)
    requires TraceOk(steps, events, views, names)
    ensures |steps| == |events| == |views| && views[..|steps|] == views
  {
    hide Faithful, Shows, Exact, Follows;
  }
}
