/**
  Runs in which a promise of the gdb driver fails, replayed through its loop: a returned box that
  the consumer never sees, a link that stays an address for it, an object with two boxes in one
  step, a step of 201 boxes, a list whose links miss its nodes, and two values drawn as one.
 */
module RunCases {
  import opened Options
  import opened HeapDelta
  import opened GdbHeap
  import opened Pointers
  import opened Patching
  import opened Driver
  import opened Drawings
  import opened Identity
  import opened Grounding
  import opened Returned
  import opened Runs
  import opened RunIds
  import opened SafePatches
  import opened ShotCases

  const NODE := Struct(Some(8), "Node", [])
  const NODE_KEY := Key("s", At(Some(8)), "Node", None)
  const NODE_BOX := ObjectBox("Node", map[], false)

  // ---- drawing one node --------------------------------------------------------------------------

  function NodeId(reg: Reg): Id {
    if NODE_KEY in reg.ids then reg.ids[NODE_KEY] else reg.counter + 1
  }

  function NodeReg(reg: Reg): Reg {
    var r := NodeId(reg);
    Reg(reg.ids[NODE_KEY := r], if NODE_KEY in reg.ids then reg.counter else r,
        if NODE_KEY in reg.ids then reg.names else reg.names[r := NODE_KEY])
  }

  /** The state after the node has been drawn. */
  function WithNode(g: HeapState): HeapState {
    var reg := NodeReg(RegOf(g));
    var r := NodeId(RegOf(g));
    g.(ids := reg.ids, counter := reg.counter, names := reg.names, used := g.used + {NODE_KEY},
       byAddress := g.byAddress[8 := r], boxes := g.boxes[r := NODE_BOX], origin := g.origin[r := (NODE, 0)])
  }

  lemma NodeDrawn(g: HeapState)
    requires NODE_KEY !in g.used && |g.used| < MAX_HEAP_OBJECTS && NodeId(RegOf(g)) !in g.boxes
    ensures AfterValue(NODE, 0, g) == (WithNode(g), RefSlot(NodeId(RegOf(g))))
  {
    var r := NodeId(RegOf(g));
    var (h1, rid) := AfterIdentify(NODE, NODE_KEY, g);
    assert rid == Some(r) && h1.boxes == g.boxes;
    var h2 := WithReserved(h1, r, NODE, 0);
    assert AfterContents(NODE, 0, h2) == (h2, NODE_BOX);
    assert h2.boxes[r := NODE_BOX] == g.boxes[r := NODE_BOX];
  }

  lemma NothingToExpand(h: HeapState, left: nat, mem: Memory)
    requires h.pending == []
    ensures AfterExpansion(h, left, mem) == StartOf(h, left)
  {
  }

  lemma NothingShown(reg: Reg, left: nat, mem: Memory)
    ensures var shot := Shoot(reg, left, [], mem);
            shot.boxes == map[] && shot.e.left == left && Pruned(shot.e.h) == Reg(map[], reg.counter, reg.names)
  {
    var none: Boxes := map[];
    var g := StateOf(reg, none);
    assert KeysWithin(reg.ids, none.Keys) == {} && g.used == {};
    NothingToExpand(g, left, mem);
    assert AfterFrames([], 0, g) == (g, []);
    assert LinkBoxes(none, map[]) == none;
    assert Restrict(reg.ids, {}) == map[];
  }

  lemma NodeShown(reg: Reg, left: nat, mem: Memory)
    ensures var shot := Shoot(reg, left, [Showing(NODE)], mem); var r := NodeId(reg);
            && shot.boxes == map[r := NODE_BOX] && shot.e.left == left
            && Pruned(shot.e.h) == Reg(map[NODE_KEY := r], NodeReg(reg).counter, NodeReg(reg).names)
  {
    hide AfterValue;
    var none: Boxes := map[];
    var g := StateOf(reg, none);
    assert KeysWithin(reg.ids, none.Keys) == {} && g.used == {} && RegOf(g) == reg;
    NodeDrawn(g);
    var h := WithNode(g);
    var f := Showing(NODE);
    assert AfterFields(Struct(None, "", f), f, 0, 0, g) == (g, map[]);
    assert AfterFields(Struct(None, "", f), f, 1, 0, g) == (h, map["x" := RefSlot(NodeId(reg))]);
    assert AfterFrames([f], 0, g) == (g, []);
    assert AfterFrames([f], 1, g).0 == h;
    NothingToExpand(h, left, mem);
    assert h.boxes == map[NodeId(reg) := NODE_BOX];
    NodeBoxHasNoLinks(h.boxes, h.byAddress);
    assert h.used == {NODE_KEY} && Restrict(h.ids, h.used) == map[NODE_KEY := NodeId(reg)];
  }

  lemma NodeBoxHasNoLinks(boxes: Boxes, byAddress: map<nat, Id>)
    requires forall r | r in boxes :: boxes[r] == NODE_BOX
    ensures LinkBoxes(boxes, byAddress) == boxes
  {
    assert LinkBox(NODE_BOX, byAddress) == NODE_BOX;
  }

  lemma NodeReturned(reg: Reg, left: nat, before: Boxes, mem: Memory)
    requires KeysWithin(reg.ids, before.Keys) == {} && NodeId(reg) !in before
    requires forall r | r in before :: before[r] == NODE_BOX
    ensures var note := Annotated(reg, left, before, NODE, mem);
            && note.after == before[NodeId(reg) := NODE_BOX] && note.e.left == left && RegOf(note.e.h) == NodeReg(reg)
  {
    hide AfterValue;
    var g := StateOf(reg, before);
    assert RegOf(g) == reg;
    NodeDrawn(g);
    NothingToExpand(WithNode(g), left, mem);
    NodeBoxHasNoLinks(WithNode(g).boxes, WithNode(g).byAddress);
  }

  // ---- one turn of the loop -------------------------------------------------------------------------

  /** A stop that shows the node or nothing, with the node returned or no value. */
  function StopWith(shows: bool, returns_: bool): StopAt {
    StopAt(if shows then [Showing(NODE)] else [], map[], if returns_ then Some(NODE) else None, 0)
  }

  function RegShown(reg: Reg, shows: bool): Reg {
    if shows then Reg(map[NODE_KEY := NodeId(reg)], NodeReg(reg).counter, NodeReg(reg).names)
    else Reg(map[], reg.counter, reg.names)
  }

  function BoxesShown(reg: Reg, shows: bool): Boxes {
    if shows then map[NodeId(reg) := NODE_BOX] else map[]
  }

  lemma ShownAre(reg: Reg, left: nat, shows: bool)
    ensures var shot := Shoot(reg, left, StopWith(shows, false).frames, map[]);
            shot.boxes == BoxesShown(reg, shows) && Pruned(shot.e.h) == RegShown(reg, shows) && shot.e.left == left
  {
    hide Shoot;
    if shows {
      NodeShown(reg, left, map[]);
    } else {
      NothingShown(reg, left, map[]);
    }
  }

  lemma PlainStop(s: Run, shows: bool)
    requires s.bytes == 0 && !s.done && |s.wires| == |s.heaps|
    ensures var t := AfterStop(s, StopWith(shows, false), 0); var now := BoxesShown(s.reg, shows);
            && t.reg == RegShown(s.reg, shows) && t.bytes == 0 && !t.done && t.patches == s.patches
            && t.wires == s.wires + [Encode(LastHeap(s.heaps), now)] && t.heaps == s.heaps + [now]
  {
    hide Shoot, Encode, RegShown, BoxesShown;
    ShownAre(s.reg, s.left, shows);
  }

  /** `t` is `s` after a stop that returned the node: the last step took a box of it. */
  ghost predicate GivesBack(s: Run, t: Run, shows: bool)
    requires Patchable(s)
  {
    var n := |s.wires| - 1;
    var before, reg, now := s.heaps[n], RegShown(s.reg, shows), BoxesShown(s.reg, shows);
    var after := before[NodeId(reg) := NODE_BOX];
    && t.reg == NodeReg(reg) && t.bytes == 0 && !t.done
    && t.wires == s.wires[..n] + [Patched(s.wires[n], before, after)] + [Encode(Some(after), now)]
    && t.heaps == s.heaps[..n] + [after] + [now]
    && |t.patches| == |s.patches| + 1
    && var p := t.patches[|s.patches|];
       p.at == n && p.before == before && p.note.after == after && RegOf(p.note.e.h) == NodeReg(reg)
  }

  lemma ReturningStop(s: Run, shows: bool)
    requires s.bytes == 0 && !s.done && Patchable(s)
    requires var before, reg := s.heaps[|s.heaps| - 1], RegShown(s.reg, shows);
             && KeysWithin(reg.ids, before.Keys) == {} && NodeId(reg) !in before
             && forall r | r in before :: before[r] == NODE_BOX
    ensures GivesBack(s, AfterStop(s, StopWith(shows, true), 0), shows)
  {
    hide Shoot, Encode, RegShown, BoxesShown, Annotated, Patched, NodeReg, NodeId, KeysWithin;
    ShownAre(s.reg, s.left, shows);
    assert StopWith(shows, true).frames == StopWith(shows, false).frames;
    var s1 := AfterShot(s, Shoot(s.reg, s.left, StopWith(shows, true).frames, map[]));
    NodeReturned(s1.reg, s1.left, s.heaps[|s.heaps| - 1], map[]);
    LastOf(s.heaps[..|s.heaps| - 1], s.heaps[|s.heaps| - 1][NodeId(s1.reg) := NODE_BOX]);
  }

  lemma LastOf(heaps: seq<Boxes>, now: Boxes)
    ensures LastHeap(heaps + [now]) == Some(now)
  {
  }

  lemma RunSteps(stops: seq<StopAt>, maxSteps: nat)
    requires stops != [] && |stops| <= maxSteps
    requires var s := RunOf(stops[..|stops| - 1], 0, maxSteps); !s.done && |s.wires| == |stops| - 1
    ensures RunOf(stops, 0, maxSteps) == AfterStop(RunOf(stops[..|stops| - 1], 0, maxSteps), stops[|stops| - 1], 0)
  {
    hide AfterStop;
  }

  // ---- a returned box that is never seen ----------------------------------------------------------

  /** Nothing is shown; then the node is returned; then it is returned again and shown. */
  function ReturnedTwice(): seq<StopAt> {
    [StopWith(false, false), StopWith(false, false), StopWith(false, true), StopWith(true, true)]
  }

  /** Of four steps the last three hold the node, and the consumer sees it in the second only. */
  ghost predicate LosesTheNode(s: Run) {
    var one: Boxes := map[1 := NODE_BOX];
    && s.heaps == [map[], one, one, one] && |s.wires| == 4
    && Decoded(true, s.wires) == [map[], one, map[], map[]]
  }

  /** After the two empty stops. */
  ghost predicate StillEmpty(s: Run) {
    var none: Boxes := map[];
    && s.bytes == 0 && !s.done && s.reg == Reg(map[], 0, map[]) && s.heaps == [none, none]
    && s.wires == [Encode(None, none), Encode(Some(none), none)]
  }

  /** After the node was returned once. */
  ghost predicate ReturnedOnce(s: Run) {
    var none: Boxes, one: Boxes := map[], map[1 := NODE_BOX];
    && s.bytes == 0 && !s.done && s.reg == NodeReg(Reg(map[], 0, map[])) && s.heaps == [none, one, none]
    && s.wires == [Encode(None, none), Patched(Encode(Some(none), none), none, one), Encode(Some(one), none)]
  }

  lemma EmptyStops(stops: seq<StopAt>)
    requires stops == ReturnedTwice()
    ensures StillEmpty(RunOf(stops[..2], 0, 4))
  {
    hide AfterStop, Encode;
    assert stops[..0] == [] && stops[..1][..0] == [] && stops[..2][..1] == stops[..1];
    RunSteps(stops[..1], 4);
    PlainStop(StartRun(), false);
    RunSteps(stops[..2], 4);
    PlainStop(RunOf(stops[..1], 0, 4), false);
  }

  lemma FirstReturn(s: Run)
    requires StillEmpty(s)
    ensures ReturnedOnce(AfterStop(s, StopWith(false, true), 0))
  {
    hide AfterStop, Encode, Patched;
    var none: Boxes, one: Boxes := map[], map[1 := NODE_BOX];
    ReturningStop(s, false);
    assert none[1 := NODE_BOX] == one;
  }

  lemma SecondReturn(s: Run)
    requires ReturnedOnce(s)
    ensures var t := AfterStop(s, StopWith(true, true), 0); var none: Boxes, one: Boxes := map[], map[1 := NODE_BOX];
            && t.heaps == [none, one, one, one]
            && t.wires == [Encode(None, none), Patched(Encode(Some(none), none), none, one),
                           Patched(Encode(Some(one), none), none, one), Encode(Some(one), one)]
  {
    hide AfterStop, Encode, Patched;
    var none: Boxes, one: Boxes := map[], map[1 := NODE_BOX];
    assert s.heaps[|s.heaps| - 1] == none && KeysWithin(RegShown(s.reg, true).ids, none.Keys) == {};
    ReturningStop(s, true);
    assert none[1 := NODE_BOX] == one;
  }

  /** An object that no variable shows is returned by two calls in a row: the registry still
      knows it, the step in between deletes its box, and the consumer, which applies `set`
      before `del`, never sees it there; the step after sends nothing for it, so it stays missing. */
  lemma ReturnedTwiceIsLost()
    ensures LosesTheNode(RunOf(ReturnedTwice(), 0, 4))
  {
    hide AfterStop, Patched, Encode, Decoded, NodeReg;
    var stops := ReturnedTwice();
    assert stops[..3][..2] == stops[..2] && stops[..4] == stops;
    EmptyStops(stops);
    RunSteps(stops[..3], 4);
    FirstReturn(RunOf(stops[..2], 0, 4));
    RunSteps(stops, 4);
    SecondReturn(RunOf(stops[..3], 0, 4));
    WiresOfLost();
    LostBox(NODE_BOX, RunOf(stops, 0, 4).wires);
  }

  lemma WiresOfLost()
    ensures var none: Boxes, one: Boxes := map[], map[1 := NODE_BOX];
            && Encode(None, none) == Wire(Some(none), None)
            && Patched(Encode(Some(none), none), none, one) == Wire(None, Some(Delta(Some(one), None)))
            && Patched(Encode(Some(one), none), none, one) == Wire(None, Some(Delta(Some(one), Some({1}))))
            && Encode(Some(one), one) == Wire(None, None)
  {
    var none: Boxes, one: Boxes := map[], map[1 := NODE_BOX];
    assert Changed(none, none) == none && Gone(none, none) == {};
    assert Changed(one, none) == none && Gone(one, none) == {1};
    assert Changed(one, one) == none && Gone(one, one) == {};
    assert Added(none, one) == one && one != none by {
      assert 1 in one;
    }
    assert none + one == one;
  }

  /** A step that sets and deletes the same id: the set is undone. */
  lemma LostBox(box: GBox, wires: seq<Wire<GBox>>)
    requires var one: Boxes := map[1 := box];
             wires == [Wire(Some(map[]), None), Wire(None, Some(Delta(Some(one), None))),
                       Wire(None, Some(Delta(Some(one), Some({1})))), Wire(None, None)]
    ensures Decoded(true, wires) == [map[], map[1 := box], map[], map[]]
  {
    var none: Boxes, one: Boxes := map[], map[1 := box];
    var w0, w1, w2 := wires[0], wires[1], wires[2];
    assert wires[..1] == [w0] && wires[..2] == [w0, w1] && wires[..3] == [w0, w1, w2] && wires[..4] == wires;
    assert [w0][..0] == [] && [w0, w1][..1] == [w0] && [w0, w1, w2][..2] == [w0, w1] && wires[..3] == [w0, w1, w2];
    assert After(true, [w0]) == Some(none);
    assert (none + one) - {} == one;
    assert After(true, [w0, w1]) == Some(one);
    assert (one + one) - {1} == none;
    assert After(true, [w0, w1, w2]) == Some(none);
    assert After(true, wires) == Some(none);
  }

  // ---- two boxes for one object --------------------------------------------------------------------

  ghost predicate HoldsTheNodeTwice(s: Run) {
    && s.heaps == [map[1 := NODE_BOX, 2 := NODE_BOX], map[]]
    && s.reg.names == map[1 := NODE_KEY, 2 := NODE_KEY]
    && s.patches != [] && Doubles(s.patches[0].before, s.patches[0].note)
  }

  /** The node is shown, then hidden and returned: the step that showed it holds it twice,
      under two ids that name the same key.  Returning a pointer to a local's node does this. */
  lemma ShownThenReturnedDoubles()
    ensures HoldsTheNodeTwice(RunOf([StopWith(true, false), StopWith(false, true)], 0, 2))
  {
    hide AfterStop, Encode, Patched, Doubles;
    var stops := [StopWith(true, false), StopWith(false, true)];
    assert stops[..0] == [] && stops[..1][..0] == [] && stops[..2] == stops;
    RunSteps(stops[..1], 2);
    PlainStop(StartRun(), true);
    var s1 := RunOf(stops[..1], 0, 2);
    RunSteps(stops, 2);
    ReturningStop(s1, false);
    hide RunOf, NodeReg;
    TwoBoxes(RunOf(stops, 0, 2).patches[0]);
  }

  lemma TwoBoxes(p: Patch)
    requires p.before == map[1 := NODE_BOX] && p.note.after == p.before[2 := NODE_BOX]
    requires p.note.e.h.names == map[1 := NODE_KEY, 2 := NODE_KEY]
    ensures Doubles(p.before, p.note)
  {
    assert 1 in p.before && 2 in Added(p.before, p.note.after);
  }

  // ---- one object, two ids in two steps ----------------------------------------------------------------

  /** Two consecutive steps hold the node, each under its own id. */
  ghost predicate RenumbersTheNode(s: Run) {
    && s.heaps == [map[1 := NODE_BOX], map[2 := NODE_BOX], map[]]
    && s.reg.names == map[1 := NODE_KEY, 2 := NODE_KEY]
  }

  /** The node is shown; then nothing is; then it is returned to the step that showed nothing. */
  lemma ShownHiddenReturned()
    ensures RenumbersTheNode(RunOf([StopWith(true, false), StopWith(false, false), StopWith(false, true)], 0, 3))
  {
    hide AfterStop, Encode, Patched;
    var stops := [StopWith(true, false), StopWith(false, false), StopWith(false, true)];
    assert stops[..0] == [] && stops[..1][..0] == [] && stops[..2][..1] == stops[..1] && stops[..3] == stops;
    RunSteps(stops[..1], 3);
    PlainStop(StartRun(), true);
    var s1 := RunOf(stops[..1], 0, 3);
    RunSteps(stops[..2], 3);
    PlainStop(s1, false);
    var s2 := RunOf(stops[..2], 0, 3);
    RunSteps(stops, 3);
    ReturningStop(s2, false);
    var none: Boxes := map[];
    assert none[2 := NODE_BOX] == map[2 := NODE_BOX];
  }

  // ---- a step of more than 200 boxes ----------------------------------------------------------------

  function FullThenReturned(): seq<StopAt> {
    [StopAt([Showing(Grid(1))], map[], None, 0), StopWith(false, true)]
  }

  lemma FullShot(reg: Reg, left: nat)
    requires RegOk(reg)
    ensures |Shoot(reg, left, [Showing(Grid(1))], map[]).boxes| == MAX_HEAP_OBJECTS
  {
    hide Shoot, Grid, GridPlaces, Within, SlotSettled, ClosedUnder, AllResolved, Rests, TurnsMet, Keeps;
    var frames := [Showing(Grid(1))];
    var shot := Shoot(reg, left, frames, map[]);
    GridIsClosed(1, map[]);
    ShotWithin(reg, left, frames, map[], GridPlaces(1));
    ShotIsDrawn(reg, left, frames, map[]);
    VariableSettled(shot.e.h, Grid(1));
    GridFills(shot.e.h, 1);
    ShotSize(shot, StopAt(frames, map[], None, 0));
  }

  lemma VariableSettled(h: HeapState, v: GValue)
    requires FrameSettled(Showing(v), h)
    ensures SlotSettled(v, 0, h)
  {
    hide SlotSettled;
    assert Showing(v)[0].1.value == v;
  }

  /** A snapshot has one box for every key it used. */
  lemma ShotSize(shot: Shot, stop: StopAt)
    requires ShotDraws(shot, stop.frames, stop.mem)
    ensures |shot.boxes| == |shot.e.h.used|
  {
    hide DrawnOk, OriginOk, QueueOk, AllResolved, LinkBoxes;
    var h := shot.e.h;
    UsedBoxes(h);
    LinkedKeys(h.boxes, h.byAddress);
    DrawnNames(shot, stop);
    forall r | r in h.boxes ensures exists k :: k in h.used && h.ids[k] == r {
      var k := BoxKey(h, r);
    }
    OneKeyEach(h.ids, h.names, h.used, h.boxes.Keys);
  }

  /** A step that shows 200 objects, all out of sight at the next stop, where a value is
      returned: the step ends up with more boxes than its cap. */
  lemma ReturnedPassesTheCap()
    ensures |RunOf(FullThenReturned(), 0, 2).heaps| == 2
            && |RunOf(FullThenReturned(), 0, 2).heaps[0]| > MAX_HEAP_OBJECTS
  {
    hide Shoot, Annotated, Encode, Patched, Grid, KeysWithin, SameNames, SameOrNew, Images, Tied;
    var stops := FullThenReturned();
    assert stops[..0] == [] && stops[..1][..0] == [] && stops[..2] == stops;
    StartIsSound();
    var s0 := StartRun();
    FullShot(s0.reg, s0.left);
    RunSteps(stops[..1], 2);
    var s1 := RunOf(stops[..1], 0, 2);
    RunIsSound(stops[..1], 0, 2);
    RunSteps(stops, 2);
    ShotStep(s1, stops[1]);
    NothingShown(s1.reg, s1.left, map[]);
    var shot := Shoot(s1.reg, s1.left, stops[1].frames, map[]);
    var t := AfterShot(s1, shot);
    NothingKnown(t.reg, s1.heaps[0]);
    ReturnedIsUsed(t.reg, t.left, s1.heaps[0], NODE, map[]);
    NoteSize(t.reg, t.left, s1.heaps[0], NODE, map[]);
    assert NODE_KEY in Annotated(t.reg, t.left, s1.heaps[0], NODE, map[]).e.h.used;
  }

  lemma NothingKnown(reg: Reg, before: Boxes)
    requires reg.ids == map[]
    ensures Known(reg, before) == {}
  {
  }

  // ---- a link that the consumer never sees ----------------------------------------------------------

  /** A holder of an address is shown twice; then what lives there is returned. */
  function HeldThenReturned(): seq<StopAt> {
    [StopAt([Showing(HOLDER)], map[], None, 0), StopAt([Showing(HOLDER)], map[], None, 0), StopWith(false, true)]
  }

  lemma HolderStop(s: Run)
    requires s.bytes == 0 && !s.done && |s.wires| == |s.heaps|
    ensures var t := AfterStop(s, StopAt([Showing(HOLDER)], map[], None, 0), 0);
            var now: Boxes := map[HolderId(s.reg) := HOLDER_BOX];
            && t.reg.ids == map[HOLDER_KEY := HolderId(s.reg)] && t.bytes == 0 && !t.done && t.patches == s.patches
            && t.wires == s.wires + [Encode(LastHeap(s.heaps), now)] && t.heaps == s.heaps + [now]
  {
    hide Shoot, Encode;
    HolderShown(s.reg, s.left);
  }

  /** The second step holds the link; it sent nothing, so the consumer still sees the address. */
  ghost predicate LosesTheLink(s: Run) {
    && |s.patches| == 1 && |s.wires| == |s.heaps| == 3
    && !(forall k: nat | k <= |s.wires| :: Decoded(true, s.wires[..k]) == s.heaps[..k])
    && var p := s.patches[0];
       && p.at == 1 && p.wire == Wire(None, None) && p.before == map[1 := HOLDER_BOX]
       && 1 in p.note.after && p.note.after[1] != HOLDER_BOX && s.heaps[1] == p.note.after
  }

  lemma HeldTwice(stops: seq<StopAt>)
    requires stops == HeldThenReturned()
    ensures var s := RunOf(stops[..2], 0, 3); var one: Boxes := map[1 := HOLDER_BOX];
            && s.bytes == 0 && !s.done && s.patches == [] && s.heaps == [one, one]
            && s.wires == [Encode(None, one), Encode(Some(one), one)]
  {
    hide AfterStop, Encode;
    assert stops[..0] == [] && stops[..1][..0] == [] && stops[..2][..1] == stops[..1];
    RunSteps(stops[..1], 3);
    HolderStop(StartRun());
    var s1 := RunOf(stops[..1], 0, 3);
    RunSteps(stops[..2], 3);
    HolderStop(s1);
  }

  lemma NothingSent(one: Boxes)
    ensures Encode(Some(one), one) == Wire(None, None)
  {
    assert Changed(one, one) == map[] && Gone(one, one) == {};
  }

  lemma HeldLinkIsLost()
    ensures LosesTheLink(RunOf(HeldThenReturned(), 0, 3))
  {
    hide Shoot, Annotated, Encode, Patched, Decoded, AllSafe, RunOf, SameNames, SameOrNew, Images, Tied,
         KeysWithin, KeyOf, Added, PatchSafe, RegOk, Expanded, LinkBox;
    var stops := HeldThenReturned();
    var one: Boxes := map[1 := HOLDER_BOX];
    assert stops[..3] == stops && stops[..3][..2] == stops[..2];
    HeldTwice(stops);
    var s := RunOf(stops[..2], 0, 3);
    NothingSent(one);
    RunIsSound(stops[..2], 0, 3);
    RunSteps(stops, 3);
    ShotStep(s, stops[2]);
    var t := AfterShot(s, Shoot(s.reg, s.left, stops[2].frames, stops[2].mem));
    var p := PatchOf(t, NODE, map[]);
    SmallOverlap(t.reg.ids, t.reg.counter, t.reg.names, one);
    NodeIsKeyed();
    OpenBoxIsStale(t.reg, t.left, p.wire, one, 1, NODE);
    HolderChanges(t.reg, t.left, one);
    RunDecodesIffSafe(stops, 0, 3, None);
    NotAllSafe(RunOf(stops, 0, 3), p);
  }

  lemma NodeIsKeyed()
    ensures KeyOf(NODE).Some? && SelfAddr(NODE) == 8 && ShowsPointer(HOLDER_BOX, 8)
  {
    assert HOLDER_BOX.fields["p"] == PtrSlot(8);
  }

  lemma HolderChanges(reg: Reg, left: nat, one: Boxes)
    requires Fits(reg, one) && one == map[1 := HOLDER_BOX] && |Known(reg, one)| < MAX_HEAP_OBJECTS
    ensures var after := Annotated(reg, left, one, NODE, map[]).after; 1 in after && after[1] != HOLDER_BOX
  {
    hide Annotated, Fits, Known, KeyOf, LinkBox, Expanded;
    NodeIsKeyed();
    ReturnedIsMarked(reg, left, one, NODE, map[]);
    NoteIsDrawn(reg, left, one, NODE, map[]);
    LinkingChanges(HOLDER_BOX, Annotated(reg, left, one, NODE, map[]).e.h.byAddress, 8);
  }

  lemma NotAllSafe(s: Run, p: Patch)
    requires p in s.patches && !PatchSafe(p.wire, p.before, p.note.after)
    ensures !AllSafe(s.patches)
  {
    hide PatchSafe;
    var i :| 0 <= i < |s.patches| && s.patches[i] == p;
  }

  // ---- a list whose links miss its nodes, and two values in one box -----------------------------------

  /** One stop that shows a list of two nodes whose first field is a struct. */
  lemma ListLosesItsLinks()
    ensures RunOf([StopAt([Showing(ListNode(8, 16))], TWO_NODES, None, 0)], 0, 1).heaps == [MissedBoxes()]
  {
    hide Shoot, Encode;
    var stops := [StopAt([Showing(ListNode(8, 16))], TWO_NODES, None, 0)];
    assert stops[..0] == [];
    RunSteps(stops, 1);
    ListMissesItsNodes(MAX_EXPANSIONS_PER_TRACE);
  }

  /** A pair of different halves is returned in registers: the step shows one half twice. */
  lemma HalvesBecomeOne()
    ensures RunOf([StopWith(false, false), StopAt([], map[], Some(PAIR), 0)], 0, 2).heaps == [OneHalf(), map[]]
  {
    hide AfterStop, Shoot, Encode, Annotated, Patched, AddedBy;
    var stops := [StopWith(false, false), StopAt([], map[], Some(PAIR), 0)];
    assert stops[..0] == [] && stops[..1][..0] == [] && stops[..2] == stops;
    RunSteps(stops[..1], 2);
    PlainStop(StartRun(), false);
    var s := RunOf(stops[..1], 0, 2);
    RunSteps(stops, 2);
    PairStop(s);
  }

  lemma PairStop(s: Run)
    requires s.heaps == [map[]] && |s.wires| == 1 && s.bytes == 0 && !s.done && s.reg == Reg(map[], 0, map[])
    ensures AfterStop(s, StopAt([], map[], Some(PAIR), 0), 0).heaps == [OneHalf(), map[]]
  {
    hide Shoot, Encode, Annotated, Patched, AddedBy;
    NothingShown(s.reg, s.left, map[]);
    HalvesShareABox(s.left);
  }
}
