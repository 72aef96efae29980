/**
  The call stack of one step: `_vars_graph` and `_build_stack`.  Frames come innermost
  first, as the interpreter's `f_back` chain does; the document lists them outermost
  first.
 */
module Stack {
  import opened Numbers
  import opened Options
  import opened HeapDelta
  import opened PyGraph
  import opened Walk

  const MAX_STACK := 25
  const MODULE_FRAME := "<module>"

  /** A variable of a frame.  A mapping key may fail to be a string; `hidden` is the
      verdict on a global (dunder name, imported module, function, class). */
  datatype Binding = Binding(name: Option<string>, value: Value, hidden: bool)

  datatype Frame = Frame(func: string, file: string, line: int, student: bool, locals: seq<Binding>)

  datatype Entry = Entry(func: string, file: string, line: int, vars: map<string, Slot>)

  // ---- what a frame shows ------------------------------------------------------

  predicate Recordable(b: Binding, dropGlobals: bool) {
    b.name.Some? && !(dropGlobals && b.hidden)
  }

  /** The first MAX_VARS recordable bindings. */
  function Kept(bs: seq<Binding>, dropGlobals: bool): (r: seq<Binding>)
    ensures |r| <= MAX_VARS && forall b | b in r :: b in bs && Recordable(b, dropGlobals)
  {
    if bs == [] then []
    else
      var rest, last := Kept(bs[..|bs| - 1], dropGlobals), bs[|bs| - 1];
      if Recordable(last, dropGlobals) && |rest| < MAX_VARS then rest + [last] else rest
  }

  function VarsOf(kept: seq<Binding>, ids: IdMap): map<string, Slot>
  {
    if kept == [] then map[]
    else
      var last := kept[|kept| - 1];
      VarsOf(kept[..|kept| - 1], ids)[last.name.GetOr("") := SlotOf(last.value, ids)]
  }

  function BindingAddrs(bs: seq<Binding>): set<Addr> {
    if bs == [] then {} else BindingAddrs(bs[..|bs| - 1]) + AddrsOf(bs[|bs| - 1].value)
  }

  function FrameVars(f: Frame): seq<Binding> {
    Kept(f.locals, f.func == MODULE_FRAME)
  }

  // ---- which frames are shown ---------------------------------------------------

  function StudentFrames(fs: seq<Frame>): seq<Frame> {
    if fs == [] then []
    else
      var rest, last := StudentFrames(fs[..|fs| - 1]), fs[|fs| - 1];
      if last.student then rest + [last] else rest
  }

  function Reversed<T>(xs: seq<T>): (r: seq<T>)
    ensures |r| == |xs| && forall i | 0 <= i < |xs| :: r[i] == xs[|xs| - 1 - i]
  {
    if xs == [] then [] else [xs[|xs| - 1]] + Reversed(xs[..|xs| - 1])
  }

  /** The innermost MAX_STACK student frames, outermost first. */
  function ShownFrames(fs: seq<Frame>): seq<Frame> {
    var all := StudentFrames(fs);
    Reversed(all[..Min(MAX_STACK, |all|)])
  }

  function EntryOf(f: Frame, ids: IdMap): Entry {
    Entry(f.func, f.file, f.line, VarsOf(FrameVars(f), ids))
  }

  function EntriesOf(fs: seq<Frame>, ids: IdMap): seq<Entry> {
    if fs == [] then [] else EntriesOf(fs[..|fs| - 1], ids) + [EntryOf(fs[|fs| - 1], ids)]
  }

  /** The objects the variables of these frames name. */
  function FrameAddrs(fs: seq<Frame>): set<Addr> {
    if fs == [] then {} else FrameAddrs(fs[..|fs| - 1]) + BindingAddrs(FrameVars(fs[|fs| - 1]))
  }

  ghost predicate FramesLive(s: Store, fs: seq<Frame>) {
    forall f, b | f in fs && b in f.locals && b.value.Obj? :: b.value.addr in s
  }

  // ---- the same drawing under agreeing ids -----------------------------------------

  lemma {:induction false} VarsAgree(kept: seq<Binding>, ids: IdMap, ids': IdMap)
    requires Agree(ids, ids', BindingAddrs(kept))
    ensures VarsOf(kept, ids) == VarsOf(kept, ids')
  {
    if kept != [] {
      VarsAgree(kept[..|kept| - 1], ids, ids');
    }
  }

  lemma {:induction false} EntriesAgree(fs: seq<Frame>, ids: IdMap, ids': IdMap)
    requires Agree(ids, ids', FrameAddrs(fs))
    ensures EntriesOf(fs, ids) == EntriesOf(fs, ids')
  {
    if fs != [] {
      EntriesAgree(fs[..|fs| - 1], ids, ids');
      VarsAgree(FrameVars(fs[|fs| - 1]), ids, ids');
    }
  }

  lemma {:induction false} FullStaysFull(bs: seq<Binding>, i: nat, drop: bool)
    requires i <= |bs| && |Kept(bs[..i], drop)| >= MAX_VARS
    ensures Kept(bs, drop) == Kept(bs[..i], drop)
    decreases |bs|
  {
    if i < |bs| {
      assert bs[..|bs| - 1][..i] == bs[..i];
      FullStaysFull(bs[..|bs| - 1], i, drop);
    } else {
      assert bs[..i] == bs;
    }
  }

  // ---- walking from the roots -----------------------------------------------------

  /** Serializing values that variables name directly: the walk advances and the roots grow. */
  ghost predicate AdvancesRooted(u: WalkState, w: WalkState) {
    u.roots <= w.roots && Advances(u.(roots := w.roots), w)
  }

  lemma RootedKeepsInv(s: Store, w: WalkState, more: set<Addr>)
    requires Inv(s, w, {})
    ensures Inv(s, w.(roots := w.roots + more), {})
  {
    hide SlotOk, QueueOk, Reachable, Draw, ShownAddrs;
    var w' := w.(roots := w.roots + more);
    forall a | a in w.touched ensures Reachable(s, w'.roots, a) {
      MoreRootsReachable(s, w.roots, w'.roots, a);
    }
    forall r | r in w.heap ensures SlotOk(s, w', r) {
      SameSlot(s, w, w', r);
    }
    SameQueue(w, w');
  }

  lemma SameSlot(s: Store, w: WalkState, w': WalkState, r: Id)
    requires r in w.heap && SlotOk(s, w, r) && w' == w.(roots := w'.roots)
    ensures SlotOk(s, w', r)
  {
    hide Draw, ShownAddrs;
  }

  lemma SameQueue(w: WalkState, w': WalkState)
    requires QueueOk(w, {}) && w' == w.(roots := w'.roots)
    ensures QueueOk(w', {})
  {
  }

  lemma RootedTransitive(u: WalkState, v: WalkState, w: WalkState)
    requires AdvancesRooted(u, v) && AdvancesRooted(v, w)
    ensures AdvancesRooted(u, w)
  {
    var u', v' := u.(roots := w.roots), v.(roots := w.roots);
    assert Advances(u', v');
    AdvancesTransitive(u', v', w);
  }

  lemma RootedAgree(u: WalkState, w: WalkState, on: set<Addr>)
    requires AdvancesRooted(u, w) && on <= u.touched
    ensures Agree(u.idmap, w.idmap, on)
  {
  }

  /** One value a variable names: it becomes a root. */
  method RootRef(w: Walker, s: Store, v: Value) returns (slot: Slot)
    requires Inv(s, w.St(), {})
    requires v.Obj? ==> v.addr in s
    modifies w
    ensures Inv(s, w.St(), {}) && AdvancesRooted(old(w.St()), w.St())
    ensures w.touched == old(w.touched) + AddrsOf(v) && w.roots == old(w.roots) + AddrsOf(v)
    ensures slot == SlotOf(v, w.idmap)
  {
    hide Inv, Advances, Reachable;
    ghost var u := w.St();
    RootedKeepsInv(s, u, AddrsOf(v));
    w.roots := w.roots + AddrsOf(v);
    ghost var u1 := w.St();
    assert u1 == u.(roots := u.roots + AddrsOf(v));
    if v.Obj? {
      RootReachable(s, w.roots, v.addr);
    }
    slot := w.ValueRef(s, v, {});
    AdvancesAgree(u1, w.St(), {});
  }

  /** `_vars_graph`: the recordable variables of one frame, each inline or by reference. */
  method VarsGraph(w: Walker, s: Store, bs: seq<Binding>, dropGlobals: bool) returns (out: map<string, Slot>)
    requires Inv(s, w.St(), {})
    requires forall b | b in bs && b.value.Obj? :: b.value.addr in s
    modifies w
    ensures Inv(s, w.St(), {}) && AdvancesRooted(old(w.St()), w.St())
    ensures w.touched == old(w.touched) + BindingAddrs(Kept(bs, dropGlobals))
    ensures w.roots == old(w.roots) + BindingAddrs(Kept(bs, dropGlobals))
    ensures out == VarsOf(Kept(bs, dropGlobals), w.idmap)
  {
    hide Inv, AdvancesRooted, SlotOf, AddrsOf;
    ghost var u := w.St();
    RootedReflexive(s, u);
    out := map[];
    var n := 0;
    assert bs[..0] == [] && BindingAddrs([]) == {};
    var i := 0;
    while i < |bs|
      invariant i <= |bs|
      invariant n == |Kept(bs[..i], dropGlobals)|
      invariant Inv(s, w.St(), {}) && AdvancesRooted(u, w.St())
      invariant w.touched == u.touched + BindingAddrs(Kept(bs[..i], dropGlobals))
      invariant w.roots == u.roots + BindingAddrs(Kept(bs[..i], dropGlobals))
      invariant out == VarsOf(Kept(bs[..i], dropGlobals), w.idmap)
      decreases |bs| - i
    {
      if n >= MAX_VARS {
        FullStaysFull(bs, i, dropGlobals);
        return;
      }
      var b := bs[i];
      assert bs[..i + 1][..i] == bs[..i] && bs[..i + 1][i] == b;
      i := i + 1;
      if b.name.None? || (dropGlobals && b.hidden) {
        continue;
      }
      ghost var v := w.St();
      ghost var kept := Kept(bs[..i - 1], dropGlobals);
      assert Kept(bs[..i], dropGlobals) == kept + [b];
      var slot := RootRef(w, s, b.value);
      VarStep(u, v, w.St(), kept, b, slot);
      out := out[b.name.value := slot];
      n := n + 1;
    }
    assert bs[..|bs|] == bs;
  }

  lemma RootedReflexive(s: Store, u: WalkState)
    requires Inv(s, u, {})
    ensures AdvancesRooted(u, u)
  {
    hide Inv;
    AdvancesReflexive(s, u, {});
    assert u.(roots := u.roots) == u;
  }

  lemma VarStep(u: WalkState, v: WalkState, w: WalkState, kept: seq<Binding>, b: Binding, slot: Slot)
    requires AdvancesRooted(u, v) && AdvancesRooted(v, w) && b.name.Some?
    requires v.touched == u.touched + BindingAddrs(kept) && w.touched == v.touched + AddrsOf(b.value)
    requires v.roots == u.roots + BindingAddrs(kept) && w.roots == v.roots + AddrsOf(b.value)
    requires slot == SlotOf(b.value, w.idmap)
    ensures AdvancesRooted(u, w)
    ensures w.touched == u.touched + BindingAddrs(kept + [b]) && w.roots == u.roots + BindingAddrs(kept + [b])
    ensures VarsOf(kept, v.idmap)[b.name.value := slot] == VarsOf(kept + [b], w.idmap)
  {
    hide AdvancesRooted, SlotOf, AddrsOf, Agree, BindingAddrs, VarsOf;
    OneMoreBinding(kept, b, w.idmap);
    RootedTransitive(u, v, w);
    RootedAgree(v, w, BindingAddrs(kept));
    VarsAgree(kept, v.idmap, w.idmap);
  }

  lemma OneMoreBinding(kept: seq<Binding>, b: Binding, ids: IdMap)
    ensures BindingAddrs(kept + [b]) == BindingAddrs(kept) + AddrsOf(b.value)
    ensures VarsOf(kept + [b], ids) == VarsOf(kept, ids)[b.name.GetOr("") := SlotOf(b.value, ids)]
  {
    assert (kept + [b])[..|kept|] == kept;
  }

  lemma EntryStep(u: WalkState, v: WalkState, w: WalkState, fs: seq<Frame>, i: nat, vars: map<string, Slot>)
    requires i < |fs| && AdvancesRooted(u, v) && AdvancesRooted(v, w)
    requires v.touched == u.touched + FrameAddrs(fs[..i]) && v.roots == u.roots + FrameAddrs(fs[..i])
    requires w.touched == v.touched + BindingAddrs(FrameVars(fs[i]))
             && w.roots == v.roots + BindingAddrs(FrameVars(fs[i]))
    requires vars == VarsOf(FrameVars(fs[i]), w.idmap)
    ensures AdvancesRooted(u, w)
    ensures w.touched == u.touched + FrameAddrs(fs[..i + 1]) && w.roots == u.roots + FrameAddrs(fs[..i + 1])
    ensures EntriesOf(fs[..i], v.idmap) + [Entry(fs[i].func, fs[i].file, fs[i].line, vars)]
            == EntriesOf(fs[..i + 1], w.idmap)
  {
    hide AdvancesRooted, FrameVars, BindingAddrs, VarsOf, Agree;
    assert fs[..i + 1][..i] == fs[..i];
    assert FrameAddrs(fs[..i + 1]) == FrameAddrs(fs[..i]) + BindingAddrs(FrameVars(fs[i]));
    RootedTransitive(u, v, w);
    RootedAgree(v, w, FrameAddrs(fs[..i]));
    EntriesAgree(fs[..i], v.idmap, w.idmap);
    hide FrameAddrs;
  }

  lemma {:induction false} StudentFramesPrefix(fs: seq<Frame>, i: nat)
    requires i <= |fs|
    ensures StudentFrames(fs[..i]) <= StudentFrames(fs)
    decreases |fs|
  {
    if i < |fs| {
      assert fs[..|fs| - 1][..i] == fs[..i];
      StudentFramesPrefix(fs[..|fs| - 1], i);
    } else {
      assert fs[..i] == fs;
    }
  }

  lemma {:induction false} StudentFramesAreFrames(fs: seq<Frame>)
    ensures forall f | f in StudentFrames(fs) :: f in fs && f.student
  {
    if fs != [] {
      StudentFramesAreFrames(fs[..|fs| - 1]);
    }
  }

  /** `_build_stack`.  The walk up the chain stops at 4 * MAX_STACK student frames and the
      cut then keeps the innermost MAX_STACK: together they show exactly `ShownFrames`. */
  method BuildStack(w: Walker, s: Store, frames: seq<Frame>) returns (stack: seq<Entry>)
    requires Inv(s, w.St(), {}) && FramesLive(s, frames)
    modifies w
    ensures Inv(s, w.St(), {}) && AdvancesRooted(old(w.St()), w.St())
    ensures w.touched == old(w.touched) + FrameAddrs(ShownFrames(frames))
    ensures w.roots == old(w.roots) + FrameAddrs(ShownFrames(frames))
    ensures stack == EntriesOf(ShownFrames(frames), w.idmap)
  {
    hide Inv, AdvancesRooted, FramesLive;
    ghost var u := w.St();
    RootedReflexive(s, u);
    var chain := ChainOf(s, frames);
    stack := [];
    assert chain[..0] == [];
    for i := 0 to |chain|
      invariant Inv(s, w.St(), {}) && AdvancesRooted(u, w.St())
      invariant w.touched == u.touched + FrameAddrs(chain[..i]) && w.roots == u.roots + FrameAddrs(chain[..i])
      invariant stack == EntriesOf(chain[..i], w.idmap)
    {
      var f := chain[i];
      ghost var v := w.St();
      var vars := VarsGraph(w, s, f.locals, f.func == MODULE_FRAME);
      EntryStep(u, v, w.St(), chain, i, vars);
      stack := stack + [Entry(f.func, f.file, f.line, vars)];
    }
    assert chain[..|chain|] == chain;
  }

  lemma StudentFramesStart(fs: seq<Frame>)
    ensures StudentFrames(fs[..0]) == []
  {
  }

  lemma StudentFramesStep(fs: seq<Frame>, i: nat)
    requires i < |fs|
    ensures StudentFrames(fs[..i + 1]) == StudentFrames(fs[..i]) + if fs[i].student then [fs[i]] else []
  {
    assert fs[..i + 1][..i] == fs[..i];
  }

  // Stopping at 4 * MAX_STACK and keeping the end of the reversed list keeps the innermost.
  lemma InnermostKept(found: seq<Frame>, all: seq<Frame>)
    requires found <= all && (found == all || |found| >= MAX_STACK)
    ensures var r := Reversed(found);
            (if |r| > MAX_STACK then r[|r| - MAX_STACK..] else r) == Reversed(all[..Min(MAX_STACK, |all|)])
  {
    var r, kept := Reversed(found), all[..Min(MAX_STACK, |all|)];
    hide Reversed;
    if |r| > MAX_STACK {
      assert |kept| == MAX_STACK;
      forall i | 0 <= i < MAX_STACK ensures r[|r| - MAX_STACK..][i] == Reversed(kept)[i] {
        assert r[|r| - MAX_STACK..][i] == found[MAX_STACK - 1 - i] == kept[MAX_STACK - 1 - i];
      }
    } else {
      assert kept == found;
    }
  }

  lemma ShownAreLive(s: Store, frames: seq<Frame>)
    requires FramesLive(s, frames)
    ensures forall f, b | f in ShownFrames(frames) && b in f.locals && b.value.Obj? :: b.value.addr in s
  {
    StudentFramesAreFrames(frames);
    var all := StudentFrames(frames);
    var kept := all[..Min(MAX_STACK, |all|)];
    forall f | f in Reversed(kept) ensures f in frames {
      var k :| 0 <= k < |kept| && Reversed(kept)[k] == f;
      assert kept[|kept| - 1 - k] == f && f in all;
    }
  }

  method ChainOf(s: Store, frames: seq<Frame>) returns (chain: seq<Frame>)
    requires FramesLive(s, frames)
    ensures chain == ShownFrames(frames)
    ensures forall f, b | f in chain && b in f.locals && b.value.Obj? :: b.value.addr in s
  {
    hide StudentFrames, FramesLive, Reversed;
    chain := [];
    var i := 0;
    StudentFramesStart(frames);
    while i < |frames| && |chain| < MAX_STACK * 4
      invariant i <= |frames|
      invariant chain == StudentFrames(frames[..i])
    {
      StudentFramesStep(frames, i);
      if frames[i].student {
        chain := chain + [frames[i]];
      }
      i := i + 1;
    }
    assert frames[..|frames|] == frames;
    StudentFramesPrefix(frames, i);
    InnermostKept(chain, StudentFrames(frames));
    ShownAreLive(s, frames);
    chain := Reversed(chain);
    if |chain| > MAX_STACK {
      chain := chain[|chain| - MAX_STACK..];
    }
  }

  // ---- what the stack lists, entry by entry -----------------------------------------

  /** `at` are, in order, the places of exactly the elements that pass. */
  ghost predicate Places<T(!new)>(at: seq<nat>, xs: seq<T>, keep: T -> bool) {
    && (forall i, j | 0 <= i < j < |at| :: at[i] < at[j])
    && forall i: nat {:trigger i in at} :: i in at <==> i < |xs| && keep(xs[i])
  }

  lemma PlacesGrow<T(!new)>(at: seq<nat>, xs: seq<T>, x: T, keep: T -> bool)
    requires Places(at, xs, keep)
    ensures Places(if keep(x) then at + [|xs|] else at, xs + [x], keep)
  {
    var more := if keep(x) then at + [|xs|] else at;
    forall k | 0 <= k < |at| ensures at[k] < |xs| {
      assert at[k] in at;
    }
    forall i: nat ensures i in more <==> i < |xs + [x]| && keep((xs + [x])[i]) {
      assert i in more <==> i in at || (keep(x) && i == |xs|);
    }
  }

  /** These elements are the ones at those places, as many as there are elements. */
  ghost predicate Picked<T(!new)>(ys: seq<T>, at: seq<nat>, xs: seq<T>) {
    |ys| <= |at| && forall k | 0 <= k < |ys| :: at[k] < |xs| && ys[k] == xs[at[k]]
  }

  lemma OneMorePick<T(!new)>(ys: seq<T>, at: seq<nat>, xs: seq<T>, x: T)
    requires Picked(ys, at, xs)
    ensures Picked(ys, at, xs + [x]) && Picked(ys, at + [|xs|], xs + [x])
    ensures |ys| == |at| ==> Picked(ys + [x], at + [|xs|], xs + [x])
  {
  }

  lemma {:induction false} StudentPlaces(fs: seq<Frame>) returns (at: seq<nat>)
    ensures Places(at, fs, (f: Frame) => f.student)
    ensures |StudentFrames(fs)| == |at| && Picked(StudentFrames(fs), at, fs)
  {
    at := [];
    if fs != [] {
      hide Places, Picked;
      var n := |fs| - 1;
      var rest := StudentPlaces(fs[..n]);
      assert fs[..n] + [fs[n]] == fs;
      PlacesGrow(rest, fs[..n], fs[n], (f: Frame) => f.student);
      at := if fs[n].student then rest + [n] else rest;
      OneMorePick(StudentFrames(fs[..n]), rest, fs[..n], fs[n]);
    }
  }

  lemma {:induction false} KeptPlaces(bs: seq<Binding>, drop: bool) returns (at: seq<nat>)
    ensures Places(at, bs, (b: Binding) => b.name.Some? && !(drop && b.hidden))
    ensures |Kept(bs, drop)| == Min(60, |at|) && Picked(Kept(bs, drop), at, bs)
  {
    at := [];
    if bs != [] {
      hide Places, Picked;
      var n := |bs| - 1;
      var rest := KeptPlaces(bs[..n], drop);
      assert bs[..n] + [bs[n]] == bs;
      PlacesGrow(rest, bs[..n], bs[n], (b: Binding) => b.name.Some? && !(drop && b.hidden));
      at := if bs[n].name.Some? && !(drop && bs[n].hidden) then rest + [n] else rest;
      OneMorePick(Kept(bs[..n], drop), rest, bs[..n], bs[n]);
    }
  }

  /** Of those bindings, `i` is the last with that name. */
  ghost predicate LastBinding(name: string, i: int, kept: seq<Binding>) {
    0 <= i < |kept| && kept[i].name == Some(name) && forall j | i < j < |kept| :: kept[j].name != Some(name)
  }

  ghost predicate ShowsBindings(vars: map<string, Slot>, kept: seq<Binding>, ids: IdMap) {
    && (forall i | 0 <= i < |kept| && kept[i].name.Some? :: kept[i].name.value in vars)
    && forall k | k in vars :: exists i :: LastBinding(k, i, kept) && ShowsValue(vars[k], kept[i].value, ids)
  }

  /** The variables listed for a frame: the first 60 bindings with a string name, in the module
      frame without the hidden ones, each with the value last given to its name. */
  ghost predicate ShowsVars(vars: map<string, Slot>, f: Frame, ids: IdMap) {
    exists at, kept ::
      && Places(at, f.locals, (b: Binding) => b.name.Some? && !(f.func == "<module>" && b.hidden))
      && |kept| == Min(60, |at|) && Picked(kept, at, f.locals) && ShowsBindings(vars, kept, ids)
  }

  ghost predicate ShowsFrame(entry: Entry, f: Frame, ids: IdMap) {
    entry.func == f.func && entry.file == f.file && entry.line == f.line && ShowsVars(entry.vars, f, ids)
  }

  /** The stack lists the student's frames, at most the 25 innermost, with the innermost last. */
  ghost predicate ShowsStack(stack: seq<Entry>, frames: seq<Frame>, ids: IdMap) {
    exists at ::
      && Places(at, frames, (f: Frame) => f.student) && |stack| == Min(25, |at|)
      && forall k | 0 <= k < |stack| :: at[k] < |frames| && ShowsFrame(stack[|stack| - 1 - k], frames[at[k]], ids)
  }

  lemma {:induction false} BindingsShow(kept: seq<Binding>, ids: IdMap)
    requires BindingAddrs(kept) <= ids.Keys && forall b | b in kept :: b.name.Some?
    ensures ShowsBindings(VarsOf(kept, ids), kept, ids)
  {
    if kept != [] {
      var n := |kept| - 1;
      BindingsShow(kept[..n], ids);
      assert kept[n] in kept;
      OneMoreShown(VarsOf(kept[..n], ids), kept[..n], kept[n], SlotOf(kept[n].value, ids), ids);
      assert kept[..n] + [kept[n]] == kept;
    }
  }

  lemma OneMoreShown(vars: map<string, Slot>, kept: seq<Binding>, b: Binding, slot: Slot, ids: IdMap)
    requires ShowsBindings(vars, kept, ids) && b.name.Some? && ShowsValue(slot, b.value, ids)
    ensures ShowsBindings(vars[b.name.value := slot], kept + [b], ids)
  {
    hide ShowsValue;
    var more, all := vars[b.name.value := slot], kept + [b];
    forall k | k in more ensures exists i :: LastBinding(k, i, all) && ShowsValue(more[k], all[i].value, ids) {
      if b.name == Some(k) {
        assert LastBinding(k, |kept|, all);
      } else {
        var i :| LastBinding(k, i, kept) && ShowsValue(vars[k], kept[i].value, ids);
        assert LastBinding(k, i, all);
      }
    }
  }

  lemma VarsShow(f: Frame, ids: IdMap)
    requires BindingAddrs(FrameVars(f)) <= ids.Keys
    ensures ShowsFrame(EntryOf(f, ids), f, ids)
  {
    hide Places, Picked, Kept, ShowsBindings, BindingAddrs;
    var at := KeptPlaces(f.locals, f.func == MODULE_FRAME);
    BindingsShow(FrameVars(f), ids);
  }

  lemma {:induction false} EntriesShow(fs: seq<Frame>, ids: IdMap)
    requires FrameAddrs(fs) <= ids.Keys
    ensures |EntriesOf(fs, ids)| == |fs|
    ensures forall i | 0 <= i < |fs| :: ShowsFrame(EntriesOf(fs, ids)[i], fs[i], ids)
  {
    hide ShowsFrame, BindingAddrs, FrameVars;
    if fs != [] {
      EntriesShow(fs[..|fs| - 1], ids);
      VarsShow(fs[|fs| - 1], ids);
    }
  }

  /** The entries of the shown frames are such a stack. */
  lemma ShownIsTheStack(frames: seq<Frame>, ids: IdMap)
    requires FrameAddrs(ShownFrames(frames)) <= ids.Keys
    ensures ShowsStack(EntriesOf(ShownFrames(frames), ids), frames, ids)
  {
    hide Places, ShowsFrame, FrameAddrs, StudentFrames, Reversed, EntriesOf;
    var at := StudentPlaces(frames);
    var shown := ShownFrames(frames);
    EntriesShow(shown, ids);
    var stack, n := EntriesOf(shown, ids), |shown|;
    forall k | 0 <= k < n ensures at[k] < |frames| && ShowsFrame(stack[n - 1 - k], frames[at[k]], ids) {
      assert shown[n - 1 - k] == StudentFrames(frames)[k];
    }
  }
}
