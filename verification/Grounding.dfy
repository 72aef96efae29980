/**
  Nothing is invented: whatever a snapshot boxes or follows is reachable from the variables of
  its frames, through the parts that are drawn and through typed pointers.

  Reachability is stated by closed sets: a set that holds the variables, and with every value
  the parts drawn from it and what a typed pointer in it leads to, holds everything.
 */
module Grounding {
  import opened Options
  import opened HeapDelta
  import opened GdbHeap
  import opened Pointers
  import opened Patching
  import opened Driver

  /** `w` is a part that the drawing of `v` shows. */
  ghost predicate IsPart(w: GValue, v: GValue) {
    match v
    case Struct(_, _, fields) => exists i :: 0 <= i < Drawn(v) && fields[i].0.Some? && fields[i].1 == Some(w)
    case Array(_, _, cells) => exists i :: 0 <= i < Drawn(v) && cells[i] == Some(w)
    case Slice(_, _, _, _, _, cells) => exists i :: 0 <= i < Drawn(v) && i < |cells| && cells[i] == Some(w)
    case _ => false
  }

  ghost predicate ClosedUnder(places: iset<Sight>, mem: Memory) {
    && (forall x, w | x in places && IsPart(w, x.0) :: (w, x.1 + 1) in places)
    && forall x | x in places && Readable(mem, x.0) :: (Pointee(mem, x.0), 0) in places
  }

  ghost predicate HasValue(places: iset<Sight>, v: GValue) {
    exists x :: x in places && x.0 == v
  }

  /** Every box of this step and every pointer met comes from the set. */
  ghost predicate Within(h: HeapState, places: iset<Sight>) {
    && (forall r | r in h.origin :: h.origin[r] in places)
    && (forall p | p in h.met :: HasValue(places, p))
    && (forall p | p in h.pending :: HasValue(places, p))
  }

  lemma {:induction false} ValueWithin(v: GValue, depth: nat, h: HeapState, places: iset<Sight>, mem: Memory)
    requires ClosedUnder(places, mem) && (v, depth) in places && Within(h, places)
    ensures Within(AfterValue(v, depth, h).0, places)
    decreases v, 3, 0
  {
    hide AfterBox, AfterHang, ClosedUnder, Within;
    if v.Pointer? && v.target != 0 {
      HungWithin(v, depth, h, places);
    } else if !v.Scalar? && !v.Pointer? && !v.Text? && !v.Other? && depth < MAX_DEPTH && KeyOf(v).Some? {
      BoxWithin(v, KeyOf(v).value, depth, h, places, mem);
    }
  }

  lemma {:induction false} BoxWithin(v: GValue, key: Key, depth: nat, h: HeapState, places: iset<Sight>, mem: Memory)
    requires ClosedUnder(places, mem) && (v, depth) in places && Within(h, places) && KeyOf(v) == Some(key)
    ensures Within(AfterBox(v, key, depth, h).0, places)
    decreases v, 2, 0
  {
    hide AfterContents, AfterIdentify, ClosedUnder, Within, KeyOf;
    IdentifyWithin(v, key, h, places);
    var (h1, rid) := AfterIdentify(v, key, h);
    if rid.Some? && rid.value !in h1.boxes {
      var h2 := WithReserved(h1, rid.value, v, depth);
      ReservedWithin(h1, rid.value, v, depth, places);
      ContentsWithin(v, depth, h2, places, mem);
      var (h3, box) := AfterContents(v, depth, h2);
      BoxesDoNotMatter(h3, h3.boxes[rid.value := box], places);
    }
  }

  lemma HungWithin(v: GValue, depth: nat, h: HeapState, places: iset<Sight>)
    requires Within(h, places) && (v, depth) in places
    ensures Within(AfterHang(v, h), places)
  {
    assert HasValue(places, v) by {
      assert (v, depth).0 == v;
    }
    hide HasValue;
  }

  lemma IdentifyWithin(v: GValue, key: Key, h: HeapState, places: iset<Sight>)
    requires Within(h, places)
    ensures Within(AfterIdentify(v, key, h).0, places)
  {
    hide Within, AfterIdentify;
    IdentifyLeaves(v, key, h);
    SameSights(h, AfterIdentify(v, key, h).0, places);
  }

  lemma IdentifyLeaves(v: GValue, key: Key, h: HeapState)
    ensures var h' := AfterIdentify(v, key, h).0; h'.origin == h.origin && h'.met == h.met && h'.pending == h.pending
  {
    hide SelfAddr, AfterIdFor;
    IdForLeaves(key, h);
  }

  lemma IdForLeaves(key: Key, h: HeapState)
    ensures var h' := AfterIdFor(key, h).0; h'.origin == h.origin && h'.met == h.met && h'.pending == h.pending
  {
  }

  lemma SameSights(g: HeapState, h: HeapState, places: iset<Sight>)
    requires Within(g, places) && h.origin == g.origin && h.met == g.met && h.pending == g.pending
    ensures Within(h, places)
  {
  }

  lemma ReservedWithin(h: HeapState, r: Id, v: GValue, depth: nat, places: iset<Sight>)
    requires Within(h, places) && (v, depth) in places
    ensures Within(WithReserved(h, r, v, depth), places)
  {
    hide HasValue;
  }

  lemma BoxesDoNotMatter(h: HeapState, boxes: map<Id, GBox>, places: iset<Sight>)
    requires Within(h, places)
    ensures Within(h.(boxes := boxes), places)
  {
    hide HasValue;
  }

  lemma {:induction false} ContentsWithin(v: GValue, depth: nat, h: HeapState, places: iset<Sight>, mem: Memory)
    requires ClosedUnder(places, mem) && (v, depth) in places && Within(h, places) && KeyOf(v).Some?
    ensures Within(AfterContents(v, depth, h).0, places)
    decreases v, 1, 0
  {
    hide AfterCells, AfterFields, Within;
    match v
    case Struct(_, _, fields) => FieldsWithin(v, fields, Drawn(v), depth, h, places, mem);
    case Array(_, _, cells) => CellsWithin(v, cells, Drawn(v), depth, h, places, mem);
    case Slice(_, _, _, _, _, cells) => CellsWithin(v, cells, Drawn(v), depth, h, places, mem);
    case Dictionary(_, _, _, _) =>
  }

  lemma {:induction false} CellsWithin(v: GValue, cells: seq<Option<GValue>>, n: nat, depth: nat, h: HeapState,
                                       places: iset<Sight>, mem: Memory)
    requires ClosedUnder(places, mem) && (v, depth) in places && Within(h, places)
    requires (v.Array? || v.Slice?) && cells == v.cells && n <= Drawn(v)
    ensures Within(AfterCells(v, cells, n, depth + 1, h).0, places)
    decreases v, 0, n
  {
    hide AfterValue, Within;
    if n > 0 {
      CellsWithin(v, cells, n - 1, depth, h, places, mem);
      var (h1, _) := AfterCells(v, cells, n - 1, depth + 1, h);
      if n - 1 < |cells| && cells[n - 1].Some? {
        assert IsPart(cells[n - 1].value, (v, depth).0);
        ValueWithin(cells[n - 1].value, depth + 1, h1, places, mem);
      }
    }
  }

  lemma {:induction false} FieldsWithin(v: GValue, fs: seq<(Option<string>, Option<GValue>)>, n: nat,
                                        depth: nat, h: HeapState,
                                        places: iset<Sight>, mem: Memory)
    requires ClosedUnder(places, mem) && (v, depth) in places && Within(h, places)
    requires v.Struct? && fs == v.fields && n <= Drawn(v)
    ensures Within(AfterFields(v, fs, n, depth + 1, h).0, places)
    decreases v, 0, n
  {
    hide AfterValue, Within;
    if n > 0 {
      FieldsWithin(v, fs, n - 1, depth, h, places, mem);
      var (h1, _) := AfterFields(v, fs, n - 1, depth + 1, h);
      if fs[n - 1].0.Some? && fs[n - 1].1.Some? {
        assert IsPart(fs[n - 1].1.value, (v, depth).0);
        ValueWithin(fs[n - 1].1.value, depth + 1, h1, places, mem);
      }
    }
  }

  lemma {:induction false} ExpandWithin(e: Expansion, mem: Memory, seen: set<nat>, places: iset<Sight>)
    requires |e.read| <= MAX_EXPANDED_PER_STEP && ClosedUnder(places, mem) && Within(e.h, places)
    ensures Within(Expand(e, mem, seen).h, places)
    decreases MAX_EXPANDED_PER_STEP - |e.read|, |e.h.pending|
  {
    hide AfterValue, ClosedUnder, Within;
    if !Rests(e) {
      var v, next := e.h.pending[0], Turn(e);
      TurnWithin(e, places);
      if !v.Pointer? || v.target == 0 || v.target in seen || v.target in e.h.byAddress {
        ExpandWithin(next, mem, seen, places);
      } else if !Readable(mem, v) {
        ExpandWithin(next, mem, seen + {v.target}, places);
      } else {
        LedWithin(places, mem, v);
        ValueWithin(Pointee(mem, v), 0, next.h, places, mem);
        ExpandWithin(Reads(next, mem, v), mem, seen + {v.target}, places);
      }
    }
  }

  lemma TurnWithin(e: Expansion, places: iset<Sight>)
    requires e.h.pending != [] && Within(e.h, places)
    ensures Within(Turn(e).h, places) && HasValue(places, e.h.pending[0])
  {
    hide HasValue;
  }

  lemma LedWithin(places: iset<Sight>, mem: Memory, v: GValue)
    requires ClosedUnder(places, mem) && HasValue(places, v) && Readable(mem, v)
    ensures (Pointee(mem, v), 0) in places
  {
    var x :| x in places && x.0 == v;
  }

  /** The variables of the frames, at depth 0. */
  ghost predicate HoldsFrames(places: iset<Sight>, frames: seq<Frame>) {
    forall f: Frame, i | f in frames && 0 <= i < |f| && f[i].0.Some? && f[i].1.Some? :: (f[i].1.value, 0) in places
  }

  lemma {:induction false} FrameWithin(v: GValue, f: Frame, n: nat, h: HeapState, places: iset<Sight>, mem: Memory)
    requires ClosedUnder(places, mem) && Within(h, places) && v.Struct? && f == v.fields && n <= |f|
    requires forall i | 0 <= i < |f| && f[i].0.Some? && f[i].1.Some? :: (f[i].1.value, 0) in places
    ensures Within(AfterFields(v, f, n, 0, h).0, places)
    decreases n
  {
    hide AfterValue, Within, ClosedUnder;
    if n > 0 {
      FrameWithin(v, f, n - 1, h, places, mem);
      if f[n - 1].0.Some? && f[n - 1].1.Some? {
        ValueWithin(f[n - 1].1.value, 0, AfterFields(v, f, n - 1, 0, h).0, places, mem);
      }
    }
  }

  lemma {:induction false} FramesWithin(frames: seq<Frame>, n: nat, h: HeapState, places: iset<Sight>, mem: Memory)
    requires ClosedUnder(places, mem) && Within(h, places) && HoldsFrames(places, frames) && n <= |frames|
    ensures Within(AfterFrames(frames, n, h).0, places)
  {
    hide AfterFields, Within, ClosedUnder;
    if n > 0 {
      FramesWithin(frames, n - 1, h, places, mem);
      var f := frames[n - 1];
      assert f in frames;
      FrameWithin(Struct(None, "", f), f, |f|, AfterFrames(frames, n - 1, h).0, places, mem);
    }
  }

  /** A snapshot boxes and follows only what its frames reach. */
  lemma ShotWithin(reg: Reg, left: nat, frames: seq<Frame>, mem: Memory, places: iset<Sight>)
    requires ClosedUnder(places, mem) && HoldsFrames(places, frames)
    ensures Within(Shoot(reg, left, frames, mem).e.h, places)
  {
    hide ClosedUnder, HoldsFrames, AfterFrames, Expand;
    var g := StateOf(reg, map[]);
    FramesWithin(frames, |frames|, g, places, mem);
    ExpandWithin(StartOf(AfterFrames(frames, |frames|, g).0, left), mem, {}, places);
  }

  /** A returned value adds only boxes of what it reaches. */
  lemma NoteWithin(reg: Reg, left: nat, before: Boxes, returned: GValue, mem: Memory, places: iset<Sight>)
    requires ClosedUnder(places, mem) && (returned, 0) in places
    ensures Within(Annotated(reg, left, before, returned, mem).e.h, places)
  {
    hide ClosedUnder, AfterValue, Expand;
    var g := StateOf(reg, before);
    ValueWithin(returned, 0, g, places, mem);
    ExpandWithin(StartOf(AfterValue(returned, 0, g).0, left), mem, {}, places);
  }
}
