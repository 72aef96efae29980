/**
  Snapshots in which the drawing says something that is not so, computed through `Shoot` and
  `Annotated`: a list whose links miss its nodes, and two values without an address in one box.
 */
module ShotCases {
  import opened Options
  import opened HeapDelta
  import opened GdbHeap
  import opened Pointers
  import opened Driver

  /** A list node at `a` whose first field is itself a struct, so at `a` too. */
  function Point(a: nat): GValue { Struct(Some(a), "Vec", []) }

  function ListNode(a: nat, next: nat): GValue {
    Struct(Some(a), "Node", [(Some("pos"), Some(Point(a))), (Some("next"), Some(Pointer(next, Some("Node"))))])
  }

  function NodeKeyAt(a: nat): Key { Key("s", At(Some(a)), "Node", None) }
  function PointKeyAt(a: nat): Key { Key("s", At(Some(a)), "Vec", None) }

  function DrawnNode(r: Id, next: nat): GBox {
    ObjectBox("Node", map["pos" := RefSlot(r + 1), "next" := PtrSlot(next)], false)
  }

  const POINT_BOX := ObjectBox("Vec", map[], false)

  /** The state after a new struct with its box. */
  function Opened(g: HeapState, v: GValue, key: Key, depth: nat, box: GBox): HeapState
  {
    var r := g.counter + 1;
    g.(ids := g.ids[key := r], counter := r, names := g.names[r := key], used := g.used + {key},
       byAddress := if SelfAddr(v) == 0 then g.byAddress else g.byAddress[SelfAddr(v) := r],
       boxes := g.boxes[r := box], origin := g.origin[r := (v, depth)])
  }

  lemma StructIdentified(v: GValue, key: Key, g: HeapState)
    requires KeyOf(v) == Some(key) && key !in g.used && key !in g.ids && |g.used| < MAX_HEAP_OBJECTS
    ensures var r := g.counter + 1; var (h, rid) := AfterIdentify(v, key, g);
            rid == Some(r) && h.boxes == g.boxes && forall depth, box ::
              h.(boxes := h.boxes[r := box], origin := h.origin[r := (v, depth)]) == Opened(g, v, key, depth, box)
  {
  }

  /** A new aggregate: its slot is reserved, its parts are drawn, its box is filled. */
  lemma NewBox(v: GValue, key: Key, depth: nat, g: HeapState)
    requires v.Struct? && KeyOf(v) == Some(key) && key !in g.used && key !in g.ids && depth < MAX_DEPTH
    requires |g.used| < MAX_HEAP_OBJECTS && forall r | r in g.boxes :: r <= g.counter
    ensures var r := g.counter + 1;
            var (h, box) := AfterContents(v, depth, Opened(g, v, key, depth, EmptyBox(v)));
            AfterValue(v, depth, g) == (h.(boxes := h.boxes[r := box]), RefSlot(r))
  {
    hide AfterContents, AfterIdentify;
    StructIdentified(v, key, g);
  }

  lemma PointDrawn(a: nat, g: HeapState)
    requires PointKeyAt(a) !in g.used && PointKeyAt(a) !in g.ids
    requires |g.used| < MAX_HEAP_OBJECTS && forall r | r in g.boxes :: r <= g.counter
    ensures AfterValue(Point(a), 1, g) == (Opened(g, Point(a), PointKeyAt(a), 1, POINT_BOX), RefSlot(g.counter + 1))
  {
    hide AfterValue;
    var v, key := Point(a), PointKeyAt(a);
    NewBox(v, key, 1, g);
    var h := Opened(g, v, key, 1, EmptyBox(v));
    assert AfterContents(v, 1, h) == (h, POINT_BOX);
    assert h.boxes[g.counter + 1 := POINT_BOX] == g.boxes[g.counter + 1 := POINT_BOX];
  }

  // ---- a list whose links miss its nodes ------------------------------------------------------------

  /** The state after a new list node: two boxes, its address recorded for the second, and the
      pointer to the next node waiting. */
  function WithListNode(g: HeapState, a: nat, next: nat): HeapState {
    var r := g.counter + 1;
    var k := Opened(Opened(g, ListNode(a, next), NodeKeyAt(a), 0, EmptyBox(ListNode(a, next))), Point(a), PointKeyAt(a),
                    1, POINT_BOX);
    var h := if next == 0 then k else AfterHang(Pointer(next, Some("Node")), k);
    h.(boxes := h.boxes[r := DrawnNode(r, next)])
  }

  lemma WithListNodeIs(g: HeapState, a: nat, next: nat)
    requires |g.pending| < MAX_POINTERS && a != 0
    ensures var h, r := WithListNode(g, a, next), g.counter + 1;
            && h.pending == (if next == 0 then g.pending else g.pending + [Pointer(next, Some("Node"))])
            && h.used == g.used + {NodeKeyAt(a), PointKeyAt(a)} && h.counter == r + 1
            && h.ids == g.ids[NodeKeyAt(a) := r][PointKeyAt(a) := r + 1]
            && h.byAddress == g.byAddress[a := r + 1]
            && h.boxes == g.boxes[r := DrawnNode(r, next)][r + 1 := POINT_BOX]
  {
    var r := g.counter + 1;
    assert g.boxes[r := EmptyBox(ListNode(a, next))][r + 1 := POINT_BOX][r := DrawnNode(r, next)]
        == g.boxes[r := DrawnNode(r, next)][r + 1 := POINT_BOX];
    assert g.byAddress[a := r][a := r + 1] == g.byAddress[a := r + 1];
    assert g.used + {NodeKeyAt(a)} + {PointKeyAt(a)} == g.used + {NodeKeyAt(a), PointKeyAt(a)};
  }

  lemma ListNodeContents(g: HeapState, a: nat, next: nat)
    requires PointKeyAt(a) !in g.used && PointKeyAt(a) !in g.ids && |g.used| < MAX_HEAP_OBJECTS
    requires |g.pending| < MAX_POINTERS && forall r | r in g.boxes :: r <= g.counter
    ensures var v := ListNode(a, next); var h := Opened(g, Point(a), PointKeyAt(a), 1, POINT_BOX);
            AfterContents(v, 0, g) ==
              (if next == 0 then h else AfterHang(Pointer(next, Some("Node")), h), DrawnNode(g.counter, next))
  {
    hide AfterValue;
    var v := ListNode(a, next);
    var fs := v.fields;
    var h := Opened(g, Point(a), PointKeyAt(a), 1, POINT_BOX);
    var p := Pointer(next, Some("Node"));
    PointDrawn(a, g);
    PointerDrawn(p, 1, h);
    assert AfterFields(v, fs, 0, 1, g) == (g, map[]);
    assert AfterFields(v, fs, 1, 1, g) == (h, map["pos" := RefSlot(g.counter + 1)]);
    assert AfterFields(v, fs, 2, 1, g) ==
      (if next == 0 then h else AfterHang(p, h), map["pos" := RefSlot(g.counter + 1), "next" := PtrSlot(next)]);
    assert Drawn(v) == 2;
  }

  lemma PointerDrawn(p: GValue, depth: nat, g: HeapState)
    requires p.Pointer?
    ensures AfterValue(p, depth, g) == (if p.target != 0 then AfterHang(p, g) else g, PtrSlot(p.target))
  {
  }

  lemma ListNodeDrawn(g: HeapState, a: nat, next: nat)
    requires a != 0 && NodeKeyAt(a) !in g.used && NodeKeyAt(a) !in g.ids
    requires PointKeyAt(a) !in g.used && PointKeyAt(a) !in g.ids && |g.used| + 1 < MAX_HEAP_OBJECTS
    requires |g.pending| < MAX_POINTERS && forall r | r in g.boxes :: r <= g.counter
    ensures AfterValue(ListNode(a, next), 0, g) == (WithListNode(g, a, next), RefSlot(g.counter + 1))
  {
    hide AfterValue, AfterContents, AfterHang;
    var v, key, r := ListNode(a, next), NodeKeyAt(a), g.counter + 1;
    var h := Opened(g, v, key, 0, EmptyBox(v));
    NewBox(v, key, 0, g);
    ListNodeContents(h, a, next);
    var (h1, box) := AfterContents(v, 0, h);
  }

  /** A frame with one variable. */
  function Showing(v: GValue): Frame { [(Some("x"), Some(v))] }

  lemma OneVariable(v: GValue, g: HeapState)
    ensures AfterFrames([Showing(v)], 1, g).0 == AfterValue(v, 0, g).0
  {
    hide AfterValue;
    var f := Showing(v);
    assert AfterFields(Struct(None, "", f), f, 0, 0, g) == (g, map[]);
    assert AfterFields(Struct(None, "", f), f, 1, 0, g).0 == AfterValue(v, 0, g).0;
    assert AfterFrames([f], 0, g) == (g, []);
  }

  const TWO_NODES: Memory := map[(16, "Node") := ListNode(16, 0)]

  /** Two nodes: the first links to the `Vec` inside the second, and nothing links to the second. */
  function MissedBoxes(): map<Id, GBox> {
    map[1 := ObjectBox("Node", map["pos" := RefSlot(2), "next" := RefSlot(4)], false),
        2 := POINT_BOX,
        3 := ObjectBox("Node", map["pos" := RefSlot(4), "next" := PtrSlot(0)], false),
        4 := POINT_BOX]
  }

  lemma ListExpanded(h: HeapState, left: nat)
    requires h.pending == [Pointer(16, Some("Node"))] && 16 !in h.byAddress && left > 0
             && |h.used| + 1 < MAX_HEAP_OBJECTS
    requires NodeKeyAt(16) !in h.used && NodeKeyAt(16) !in h.ids && PointKeyAt(16) !in h.used
             && PointKeyAt(16) !in h.ids
    requires forall r | r in h.boxes :: r <= h.counter
    ensures AfterExpansion(h, left, TWO_NODES).h == WithListNode(h.(pending := []), 16, 0)
  {
    hide AfterValue, WithListNode;
    var e, p := StartOf(h, left), Pointer(16, Some("Node"));
    assert Turn(e).h == h.(pending := []);
    assert Readable(TWO_NODES, p) && Pointee(TWO_NODES, p) == ListNode(16, 0);
    ListNodeDrawn(Turn(e).h, 16, 0);
    var r := Reads(Turn(e), TWO_NODES, p);
    assert r.h == WithListNode(h.(pending := []), 16, 0);
    WithListNodeIs(h.(pending := []), 16, 0);
    assert Expand(r, TWO_NODES, {} + {p.target}) == r;
  }

  /** The state when the head is drawn and its pointer is about to be followed. */
  ghost predicate HeadIsDrawn(h: HeapState) {
    && h.pending == [Pointer(16, Some("Node"))] && |h.used| == 2 && h.counter == 2
    && NodeKeyAt(16) !in h.used && NodeKeyAt(16) !in h.ids && PointKeyAt(16) !in h.used && PointKeyAt(16) !in h.ids
    && h.byAddress == map[8 := 2] && h.boxes == map[1 := DrawnNode(1, 16), 2 := POINT_BOX]
  }

  lemma HeadDrawn(g: HeapState)
    requires g.used == {} && g.ids == map[] && g.boxes == map[] && g.byAddress == map[] && g.pending == []
             && g.counter == 0
    ensures HeadIsDrawn(WithListNode(g, 8, 16)) && AfterValue(ListNode(8, 16), 0, g).0 == WithListNode(g, 8, 16)
  {
    hide AfterValue, WithListNode, DrawnNode;
    ListNodeDrawn(g, 8, 16);
    WithListNodeIs(g, 8, 16);
    TwoKinds(8);
    assert {} + {NodeKeyAt(8), PointKeyAt(8)} == {NodeKeyAt(8), PointKeyAt(8)};
  }

  lemma TwoKinds(a: nat)
    ensures NodeKeyAt(a) != PointKeyAt(a)
  {
    assert "Node"[0] != "Vec"[0];
  }

  lemma TailDrawn(h: HeapState, left: nat)
    requires HeadIsDrawn(h) && left > 0
    ensures var e := AfterExpansion(h, left, TWO_NODES).h;
            e.byAddress == map[8 := 2, 16 := 4]
            && e.boxes == map[1 := DrawnNode(1, 16), 2 := POINT_BOX, 3 := DrawnNode(3, 0), 4 := POINT_BOX]
  {
    hide AfterValue, AfterExpansion, WithListNode, DrawnNode;
    ListExpanded(h, left);
    WithListNodeIs(h.(pending := []), 16, 0);
  }

  /** A list of two nodes, each with a struct for its first field: the link of the first leads to
      the struct inside the second, and nothing leads to the second node itself. */
  lemma ListMissesItsNodes(left: nat)
    requires left > 0
    ensures Shoot(Reg(map[], 0, map[]), left, [Showing(ListNode(8, 16))], TWO_NODES).boxes == MissedBoxes()
  {
    hide AfterValue, AfterExpansion, LinkBox, WithListNode, AfterFrames, StateOf, HeadIsDrawn, DrawnNode;
    var none: map<Id, GBox> := map[];
    var g := StateOf(Reg(map[], 0, map[]), none);
    EmptyState();
    OneVariable(ListNode(8, 16), g);
    HeadDrawn(g);
    TailDrawn(WithListNode(g, 8, 16), left);
    LinkedList();
    var e := AfterExpansion(WithListNode(g, 8, 16), left, TWO_NODES).h;
    assert LinkBoxes(e.boxes, e.byAddress) == MissedBoxes();
  }

  lemma EmptyState()
    ensures var none: map<Id, GBox> := map[]; var g := StateOf(Reg(map[], 0, map[]), none);
            g.used == {} && g.ids == map[] && g.boxes == map[] && g.byAddress == map[] && g.pending == []
              && g.counter == 0
  {
    var none: map<Id, GBox> := map[];
    assert KeysWithin(map[], none.Keys) == {};
  }

  lemma LinkedList()
    ensures var at: map<nat, Id> := map[8 := 2, 16 := 4];
            && LinkBox(DrawnNode(1, 16), at) == ObjectBox("Node", map["pos" := RefSlot(2), "next" := RefSlot(4)], false)
            && LinkBox(DrawnNode(3, 0), at) == ObjectBox("Node", map["pos" := RefSlot(4), "next" := PtrSlot(0)], false)
            && LinkBox(POINT_BOX, at) == POINT_BOX
  {
    var at: map<nat, Id> := map[8 := 2, 16 := 4];
    assert LinkMap(DrawnNode(1, 16).fields, at) == map["pos" := RefSlot(2), "next" := RefSlot(4)];
    assert LinkMap(DrawnNode(3, 0).fields, at) == map["pos" := RefSlot(4), "next" := PtrSlot(0)];
    assert LinkMap(map[], at) == map[];
  }

  // ---- two values without an address ----------------------------------------------------------------

  /** A struct handed back in registers, so without an address; its parts have none either. */
  function Half(text: string): GValue { Struct(None, "Half", [(Some("n"), Some(Scalar("int", text)))]) }

  const PAIR := Struct(None, "Pair", [(Some("a"), Some(Half("1"))), (Some("b"), Some(Half("2")))])
  const PAIR_KEY := Key("s", At(None), "Pair", None)
  const HALF_KEY := Key("s", At(None), "Half", None)
  const FIRST_HALF := ObjectBox("Half", map["n" := PrimSlot("int", "1")], false)

  /** Both fields refer to one box, which draws the first half. */
  function OneHalf(): map<Id, GBox> {
    map[1 := ObjectBox("Pair", map["a" := RefSlot(2), "b" := RefSlot(2)], false), 2 := FIRST_HALF]
  }

  lemma HalfContents(g: HeapState)
    ensures AfterContents(Half("1"), 1, g) == (g, FIRST_HALF)
  {
    var v := Half("1");
    assert AfterFields(v, v.fields, 0, 2, g) == (g, map[]);
    assert AfterFields(v, v.fields, 1, 2, g) == (g, map["n" := PrimSlot("int", "1")]);
  }

  lemma FirstHalf(g: HeapState)
    requires HALF_KEY !in g.used && HALF_KEY !in g.ids && |g.used| < MAX_HEAP_OBJECTS
    requires forall r | r in g.boxes :: r <= g.counter
    ensures AfterValue(Half("1"), 1, g) == (Opened(g, Half("1"), HALF_KEY, 1, FIRST_HALF), RefSlot(g.counter + 1))
  {
    hide AfterValue, AfterContents;
    NewBox(Half("1"), HALF_KEY, 1, g);
    HalfContents(Opened(g, Half("1"), HALF_KEY, 1, EmptyBox(Half("1"))));
    assert g.boxes[g.counter + 1 := EmptyBox(Half("1"))][g.counter + 1 := FIRST_HALF]
           == g.boxes[g.counter + 1 := FIRST_HALF];
  }

  lemma SecondHalf(g: HeapState)
    requires HALF_KEY in g.used && HALF_KEY in g.ids && g.ids[HALF_KEY] in g.boxes
    ensures AfterValue(Half("2"), 1, g) == (g, RefSlot(g.ids[HALF_KEY]))
  {
    assert KeyOf(Half("2")) == Some(HALF_KEY);
    assert AfterIdentify(Half("2"), HALF_KEY, g) == (g, Some(g.ids[HALF_KEY]));
  }

  lemma PairContents(g: HeapState)
    requires HALF_KEY !in g.used && HALF_KEY !in g.ids && |g.used| < MAX_HEAP_OBJECTS
    requires forall r | r in g.boxes :: r <= g.counter
    ensures var r := g.counter + 1;
            AfterContents(PAIR, 0, g) == (Opened(g, Half("1"), HALF_KEY, 1, FIRST_HALF),
                                          ObjectBox("Pair", map["a" := RefSlot(r), "b" := RefSlot(r)], false))
  {
    hide AfterValue;
    var fs, r := PAIR.fields, g.counter + 1;
    var h := Opened(g, Half("1"), HALF_KEY, 1, FIRST_HALF);
    FirstHalf(g);
    SecondHalf(h);
    assert AfterFields(PAIR, fs, 0, 1, g) == (g, map[]);
    assert AfterFields(PAIR, fs, 1, 1, g) == (h, map["a" := RefSlot(r)]);
    assert AfterFields(PAIR, fs, 2, 1, g) == (h, map["a" := RefSlot(r), "b" := RefSlot(r)]);
    assert Drawn(PAIR) == 2;
  }

  lemma PairDrawn(g: HeapState)
    requires g.used == {} && g.ids == map[] && g.boxes == map[] && g.pending == [] && g.counter == 0
    ensures var k := AfterValue(PAIR, 0, g).0; k.boxes == OneHalf() && k.pending == []
  {
    hide AfterValue, AfterContents;
    NewBox(PAIR, PAIR_KEY, 0, g);
    assert HALF_KEY != PAIR_KEY by {
      assert "Half"[0] != "Pair"[0];
    }
    PairContents(Opened(g, PAIR, PAIR_KEY, 0, EmptyBox(PAIR)));
  }

  lemma HalvesShowNoPointer()
    ensures forall r, t | r in OneHalf() :: !ShowsPointer(OneHalf()[r], t)
  {
  }

  /** A returned pair of two different halves is drawn as two references to the first. */
  lemma HalvesShareABox(left: nat)
    ensures Annotated(Reg(map[], 0, map[]), left, map[], PAIR, map[]).after == OneHalf()
  {
    hide AfterValue, AfterExpansion, StateOf, OneHalf, LinkBoxes;
    var none: map<Id, GBox> := map[];
    var g := StateOf(Reg(map[], 0, map[]), none);
    EmptyState();
    PairDrawn(g);
    NoneWaits(AfterValue(PAIR, 0, g).0, left);
    HalvesShowNoPointer();
    NothingToLink(OneHalf());
  }

  lemma NoneWaits(h: HeapState, left: nat)
    requires h.pending == []
    ensures AfterExpansion(h, left, map[]).h == h
  {
  }

  lemma NothingToLink(boxes: map<Id, GBox>)
    requires forall r, t | r in boxes :: !ShowsPointer(boxes[r], t)
    ensures forall byAddress :: LinkBoxes(boxes, byAddress) == boxes
  {
    forall byAddress ensures LinkBoxes(boxes, byAddress) == boxes {
      forall r | r in boxes ensures LinkBox(boxes[r], byAddress) == boxes[r] {
        if LinkBox(boxes[r], byAddress) != boxes[r] {
          var t := ChangedShows(boxes[r], byAddress);
        }
      }
      assert LinkBoxes(boxes, byAddress) == boxes;
    }
  }

  // ---- a box that shows an address ------------------------------------------------------------------

  /** A struct with an untyped pointer to 8. */
  const HOLDER := Struct(Some(40), "Holder", [(Some("p"), Some(Pointer(8, None)))])
  const HOLDER_KEY := Key("s", At(Some(40)), "Holder", None)
  const HOLDER_BOX := ObjectBox("Holder", map["p" := PtrSlot(8)], false)

  function HolderId(reg: Reg): Id {
    if HOLDER_KEY in reg.ids then reg.ids[HOLDER_KEY] else reg.counter + 1
  }

  lemma HolderContents(g: HeapState)
    ensures AfterContents(HOLDER, 0, g) == (AfterHang(Pointer(8, None), g), HOLDER_BOX)
  {
    hide AfterValue;
    PointerDrawn(Pointer(8, None), 1, g);
    assert AfterFields(HOLDER, HOLDER.fields, 0, 1, g) == (g, map[]);
    assert AfterFields(HOLDER, HOLDER.fields, 1, 1, g) == (AfterHang(Pointer(8, None), g), map["p" := PtrSlot(8)]);
  }

  lemma HolderDrawn(g: HeapState)
    requires g.used == {} && g.boxes == map[] && g.byAddress == map[] && g.pending == []
    ensures var h := AfterValue(HOLDER, 0, g).0; var r := HolderId(RegOf(g));
            && h.pending == [Pointer(8, None)] && h.used == {HOLDER_KEY} && h.boxes == map[r := HOLDER_BOX]
            && h.byAddress == map[40 := r] && HOLDER_KEY in h.ids && h.ids[HOLDER_KEY] == r
            && h.counter == (if HOLDER_KEY in g.ids then g.counter else g.counter + 1)
            && h.names == (if HOLDER_KEY in g.ids then g.names else g.names[r := HOLDER_KEY])
  {
    hide AfterContents;
    var r := HolderId(RegOf(g));
    var (h1, rid) := AfterIdentify(HOLDER, HOLDER_KEY, g);
    assert rid == Some(r) && h1.boxes == g.boxes;
    var h2 := WithReserved(h1, r, HOLDER, 0);
    HolderContents(h2);
    assert h2.boxes[r := HOLDER_BOX] == map[r := HOLDER_BOX];
  }

  /** The untyped pointer has its turn, and nothing is read. */
  lemma UntypedIsSkipped(h: HeapState, left: nat)
    requires h.pending == [Pointer(8, None)] && 8 !in h.byAddress
    ensures var e := AfterExpansion(h, left, map[]);
            e.h.boxes == h.boxes && e.h.byAddress == h.byAddress && e.h.used == h.used && RegOf(e.h) == RegOf(h)
  {
    var e := StartOf(h, left);
    if !Rests(e) {
      assert Turn(e).h.pending == [];
      assert AfterExpansion(h, left, map[]) == Expand(Turn(e), map[], {} + {8});
    }
  }

  /** The holder shown: its box keeps the address, since nothing lives there. */
  lemma HolderShown(reg: Reg, left: nat)
    ensures var shot := Shoot(reg, left, [Showing(HOLDER)], map[]); var r := HolderId(reg);
            && shot.boxes == map[r := HOLDER_BOX]
            && Pruned(shot.e.h) == Reg(map[HOLDER_KEY := r],
                                       if HOLDER_KEY in reg.ids then reg.counter else r,
                                       if HOLDER_KEY in reg.ids then reg.names else reg.names[r := HOLDER_KEY])
  {
    hide AfterValue, AfterExpansion, AfterFrames;
    var none: map<Id, GBox> := map[];
    var g := StateOf(reg, none);
    assert KeysWithin(reg.ids, none.Keys) == {} && g.used == {} && RegOf(g) == reg;
    OneVariable(HOLDER, g);
    HolderDrawn(g);
    var h := AfterValue(HOLDER, 0, g).0;
    UntypedIsSkipped(h, left);
    var e := AfterExpansion(h, left, map[]);
    assert LinkMap(HOLDER_BOX.fields, e.h.byAddress) == HOLDER_BOX.fields;
    assert LinkBoxes(e.h.boxes, e.h.byAddress) == map[HolderId(reg) := HOLDER_BOX];
    assert Restrict(e.h.ids, e.h.used) == map[HOLDER_KEY := HolderId(reg)];
  }
}
