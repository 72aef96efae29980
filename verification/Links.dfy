/**
  Where a link leads.  `marca_endereco` records every aggregate that is met under its own
  address, so the last one met there is the one that a pointer to the address is linked to:
  not always the one that it points to, since the first part of a struct has its address too.

  `Visits` is the order in which the aggregates of a value are met, without ids, boxes or queue.
  Here what was read is taken from the snapshot; `Tours` foretells that too.
 */
module Links {
  import opened Options
  import opened HeapDelta
  import opened GdbHeap
  import opened Pointers
  import opened Driver
  import opened Drawings
  import opened Grounding

  // ---- the order in which aggregates are met --------------------------------------------------

  /** The aggregates met in drawing a value, in order, each before its parts, and the keys that
      are boxed afterwards.  One that already has its box is met again without its parts. */
  function Visits(v: GValue, depth: nat, used: set<Key>): (seq<Sight>, set<Key>)
    decreases v, 2, 0
  {
    if KeyOf(v).None? || depth >= MAX_DEPTH then ([], used)
    else if KeyOf(v).value in used then ([(v, depth)], used)
    else if |used| >= MAX_HEAP_OBJECTS then ([], used)
    else
      var (inner, after) := PartVisits(v, depth, used + {KeyOf(v).value});
      ([(v, depth)] + inner, after)
  }

  function PartVisits(v: GValue, depth: nat, used: set<Key>): (seq<Sight>, set<Key>)
    decreases v, 1, 0
  {
    match v
    case Struct(_, _, fields) => FieldVisits(v, fields, Drawn(v), depth + 1, used)
    case Array(_, _, cells) => CellVisits(v, cells, Drawn(v), depth + 1, used)
    case Slice(_, _, _, _, _, cells) => CellVisits(v, cells, Drawn(v), depth + 1, used)
    case _ => ([], used)
  }

  function CellVisits(v: GValue, cells: seq<Option<GValue>>, n: nat, depth: nat, used: set<Key>)
      : (seq<Sight>, set<Key>)
    requires (v.Array? || v.Slice?) && cells == v.cells
    decreases v, 0, n
  {
    if n == 0 then ([], used)
    else
      var (before, used1) := CellVisits(v, cells, n - 1, depth, used);
      if n - 1 < |cells| && cells[n - 1].Some? then
        var (now, used2) := Visits(cells[n - 1].value, depth, used1);
        (before + now, used2)
      else (before, used1)
  }

  function FieldVisits(v: GValue, fs: seq<(Option<string>, Option<GValue>)>, n: nat, depth: nat, used: set<Key>)
      : (seq<Sight>, set<Key>)
    requires v.Struct? && fs == v.fields && n <= |fs|
    decreases v, 0, n
  {
    if n == 0 then ([], used)
    else
      var (before, used1) := FieldVisits(v, fs, n - 1, depth, used);
      if fs[n - 1].0.Some? && fs[n - 1].1.Some? then
        var (now, used2) := Visits(fs[n - 1].1.value, depth, used1);
        (before + now, used2)
      else (before, used1)
  }

  /** The last aggregate met at an address. */
  function Resident(visits: seq<Sight>, a: nat): Option<Sight> {
    if visits == [] || a == 0 then None
    else if SelfAddr(visits[|visits| - 1].0) == a then Some(visits[|visits| - 1])
    else Resident(visits[..|visits| - 1], a)
  }

  lemma {:induction false} ResidentOfBoth(xs: seq<Sight>, ys: seq<Sight>, a: nat)
    ensures Resident(xs + ys, a) == if Resident(ys, a).Some? then Resident(ys, a) else Resident(xs, a)
  {
    if ys == [] {
      assert xs + ys == xs;
    } else {
      var zs := ys[..|ys| - 1];
      assert (xs + ys)[..|xs + ys| - 1] == xs + zs;
      ResidentOfBoth(xs, zs, a);
    }
  }

  lemma {:induction false} ResidentIs(visits: seq<Sight>, a: nat)
    ensures Resident(visits, a).Some? <==> a != 0 && exists x :: x in visits && SelfAddr(x.0) == a
    ensures Resident(visits, a).Some? ==>
              Resident(visits, a).value in visits && SelfAddr(Resident(visits, a).value.0) == a
  {
    if visits != [] && a != 0 && SelfAddr(visits[|visits| - 1].0) != a {
      ResidentIs(visits[..|visits| - 1], a);
      assert visits == visits[..|visits| - 1] + [visits[|visits| - 1]];
    }
  }

  function IdOf(v: GValue, ids: map<Key, Id>): Option<Id> {
    if KeyOf(v).Some? && KeyOf(v).value in ids then Some(ids[KeyOf(v).value]) else None
  }

  /** What the recorded addresses have become after these visits. */
  ghost predicate Led(before: map<nat, Id>, after: map<nat, Id>, visits: seq<Sight>, ids: map<Key, Id>) {
    && (forall a :: a in after <==> a in before || Resident(visits, a).Some?)
    && (forall a | a in after ::
          if Resident(visits, a).Some? then IdOf(Resident(visits, a).value.0, ids) == Some(after[a])
          else after[a] == before[a])
  }

  lemma LedNowhere(at: map<nat, Id>, ids: map<Key, Id>)
    ensures Led(at, at, [], ids)
  {
  }

  lemma LedTransitive(a: map<nat, Id>, b: map<nat, Id>, c: map<nat, Id>, xs: seq<Sight>, ys: seq<Sight>,
                      ids: map<Key, Id>, later: map<Key, Id>)
    requires Led(a, b, xs, ids) && Led(b, c, ys, later)
    requires forall k | k in ids :: k in later && later[k] == ids[k]
    ensures Led(a, c, xs + ys, later)
  {
    hide Resident;
    forall t ensures Resident(xs + ys, t) == if Resident(ys, t).Some? then Resident(ys, t) else Resident(xs, t) {
      ResidentOfBoth(xs, ys, t);
    }
  }

  // ---- drawing follows that order ----------------------------------------------------------------

  ghost predicate Follows(g: HeapState, h: HeapState, r: (seq<Sight>, set<Key>)) {
    h.used == r.1 && Led(g.byAddress, h.byAddress, r.0, h.ids)
  }

  lemma FollowsTransitive(f: HeapState, g: HeapState, h: HeapState, r: (seq<Sight>, set<Key>),
                          s: (seq<Sight>, set<Key>))
    requires Follows(f, g, r) && Follows(g, h, s) && Adds(g, h)
    ensures Follows(f, h, (r.0 + s.0, s.1))
  {
    hide Led, UsedOk;
    LedTransitive(f.byAddress, g.byAddress, h.byAddress, r.0, s.0, g.ids, h.ids);
  }

  lemma FollowsNowhere(g: HeapState, h: HeapState)
    requires h.used == g.used && h.byAddress == g.byAddress
    ensures Follows(g, h, ([], g.used))
  {
    LedNowhere(g.byAddress, h.ids);
  }

  lemma MetAt(g: HeapState, h: HeapState, v: GValue, key: Key, r: Id, depth: nat)
    requires Identified(g, h, v, key, r) && KeyOf(v) == Some(key)
    ensures Led(g.byAddress, h.byAddress, [(v, depth)], h.ids) && h.used == g.used + {key}
  {
    hide SelfAddr;
    var visits: seq<Sight> := [(v, depth)];
    assert visits[..0] == [] && IdOf(v, h.ids) == Some(r);
    forall a ensures Resident(visits, a) == if a != 0 && SelfAddr(v) == a then Some((v, depth)) else None {
    }
    hide Resident, IdOf, KeyOf;
  }

  lemma BoxedIffUsed(g: HeapState, key: Key, r: Id, open: set<Id>)
    requires Inv(g, open) && r == (if key in g.ids then g.ids[key] else g.counter + 1)
    ensures r in g.boxes <==> key in g.used
  {
    hide DrawnOk, OriginOk;
    if r in g.boxes {
      BoxedIsUsed(g, key, r);
    }
  }

  lemma {:induction false} ValueFollows(v: GValue, depth: nat, g: HeapState, open: set<Id>)
    requires Inv(g, open)
    ensures Follows(g, AfterValue(v, depth, g).0, Visits(v, depth, g.used))
    decreases v, 3, 0
  {
    hide Inv, Follows, AfterBox, Visits;
    if v.Pointer? && v.target != 0 {
      FollowsNowhere(g, AfterHang(v, g));
    } else if KeyOf(v).None? || depth >= MAX_DEPTH {
      FollowsNowhere(g, g);
    } else {
      BoxFollows(v, KeyOf(v).value, depth, g, open);
    }
    assert KeyOf(v).None? || depth >= MAX_DEPTH ==> Visits(v, depth, g.used) == ([], g.used) by {
      NothingMet(v, depth, g.used);
    }
  }

  lemma NothingMet(v: GValue, depth: nat, used: set<Key>)
    ensures KeyOf(v).None? || depth >= MAX_DEPTH ==> Visits(v, depth, used) == ([], used)
  {
  }

  lemma {:induction false} BoxFollows(v: GValue, key: Key, depth: nat, g: HeapState, open: set<Id>)
    requires Inv(g, open) && KeyOf(v) == Some(key) && depth < MAX_DEPTH
    ensures Follows(g, AfterBox(v, key, depth, g).0, Visits(v, depth, g.used))
    decreases v, 2, 0
  {
    hide Inv, Led, Identified, AfterIdentify, AfterContents, KeyOf, PartVisits, EmptyBox, Adds;
    IdentifiedOrFull(g, v, key, open);
    var (h1, rid) := AfterIdentify(v, key, g);
    if rid.None? {
      LedNowhere(g.byAddress, h1.ids);
    } else {
      var r := rid.value;
      MetAt(g, h1, v, key, r, depth);
      IdentifiedId(g, h1, v, key, r);
      RoomFor(g, h1, v, key, r);
      BoxedIffUsed(g, key, r, open);
      if r !in h1.boxes {
        var h2 := WithReserved(h1, r, v, depth);
        ReservedKeepsInv(g, h2, v, key, depth, open);
        PartsFollow(v, depth, h2, open + {r});
        ContentsDrawn(v, depth, h2, open + {r});
        var (h3, box) := AfterContents(v, depth, h2);
        FollowsTransitive(g, h2, h3, ([(v, depth)], h2.used), PartVisits(v, depth, h2.used));
      } else {
        assert g.used + {key} == g.used;
      }
    }
  }

  lemma RoomFor(g: HeapState, h: HeapState, v: GValue, key: Key, r: Id)
    requires Identified(g, h, v, key, r)
    ensures key in g.used || |g.used| < MAX_HEAP_OBJECTS
    ensures r == (if key in g.ids then g.ids[key] else g.counter + 1) && key in h.ids && h.ids[key] == r
    ensures forall b, o :: Identified(g, h.(boxes := b, origin := o), v, key, r)
  {
  }

  lemma {:induction false} PartsFollow(v: GValue, depth: nat, g: HeapState, open: set<Id>)
    requires Inv(g, open) && KeyOf(v).Some?
    ensures Follows(g, AfterContents(v, depth, g).0, PartVisits(v, depth, g.used))
    decreases v, 1, 0
  {
    hide Inv, Follows, AfterCells, AfterFields, CellVisits, FieldVisits;
    match v
    case Struct(_, _, fields) => FieldsFollow(v, fields, Drawn(v), depth + 1, g, open);
    case Array(_, _, cells) => CellsFollow(v, cells, Drawn(v), depth + 1, g, open);
    case Slice(_, _, _, _, _, cells) => CellsFollow(v, cells, Drawn(v), depth + 1, g, open);
    case Dictionary(_, _, _, _) => FollowsNowhere(g, g);
  }

  lemma {:induction false} CellsFollow(v: GValue, cells: seq<Option<GValue>>, n: nat, depth: nat, g: HeapState,
                                       open: set<Id>)
    requires Inv(g, open) && (v.Array? || v.Slice?) && cells == v.cells
    ensures Follows(g, AfterCells(v, cells, n, depth, g).0, CellVisits(v, cells, n, depth, g.used))
    decreases v, 0, n
  {
    hide Inv, Led, AfterValue, Visits, Adds, SlotSettled, SlotG;
    FollowsNowhere(g, g);
    if n > 0 {
      CellsFollow(v, cells, n - 1, depth, g, open);
      CellsDrawn(v, cells, n - 1, depth, g, open);
      var (h, _) := AfterCells(v, cells, n - 1, depth, g);
      if n - 1 < |cells| && cells[n - 1].Some? {
        var x := cells[n - 1].value;
        ValueFollows(x, depth, h, open);
        ValueDrawn(x, depth, h, open);
        FollowsTransitive(g, h, AfterValue(x, depth, h).0, CellVisits(v, cells, n - 1, depth, g.used),
          Visits(x, depth, h.used));
      }
    }
  }

  lemma {:induction false} FieldsFollow(v: GValue, fs: seq<(Option<string>, Option<GValue>)>, n: nat, depth: nat,
                                        g: HeapState, open: set<Id>)
    requires Inv(g, open) && v.Struct? && fs == v.fields && n <= |fs|
    ensures Follows(g, AfterFields(v, fs, n, depth, g).0, FieldVisits(v, fs, n, depth, g.used))
    decreases v, 0, n
  {
    hide Inv, Led, AfterValue, Visits, Adds, SlotSettled, SlotG;
    FollowsNowhere(g, g);
    if n > 0 {
      FieldsFollow(v, fs, n - 1, depth, g, open);
      FieldsDrawn(v, fs, n - 1, depth, g, open);
      var (h, _) := AfterFields(v, fs, n - 1, depth, g);
      if fs[n - 1].0.Some? && fs[n - 1].1.Some? {
        var x := fs[n - 1].1.value;
        ValueFollows(x, depth, h, open);
        ValueDrawn(x, depth, h, open);
        FollowsTransitive(g, h, AfterValue(x, depth, h).0, FieldVisits(v, fs, n - 1, depth, g.used),
          Visits(x, depth, h.used));
      }
    }
  }

  // ---- a whole step ------------------------------------------------------------------------------

  function FramesVisits(frames: seq<Frame>, n: nat, used: set<Key>): (seq<Sight>, set<Key>)
    requires n <= |frames|
  {
    if n == 0 then ([], used)
    else
      var (before, used1) := FramesVisits(frames, n - 1, used);
      var f := frames[n - 1];
      var (now, used2) := FieldVisits(Struct(None, "", f), f, |f|, 0, used1);
      (before + now, used2)
  }

  function ReadVisits(read: seq<(nat, string)>, mem: Memory, used: set<Key>): (seq<Sight>, set<Key>) {
    if read == [] then ([], used)
    else
      var (before, used1) := ReadVisits(read[..|read| - 1], mem, used);
      var q := read[|read| - 1];
      if q in mem then
        var (now, used2) := Visits(mem[q], 0, used1);
        (before + now, used2)
      else (before, used1)
  }

  /** The aggregates met in a snapshot: those of the frames, then those of what was read. */
  function StepVisits(frames: seq<Frame>, read: seq<(nat, string)>, mem: Memory): (seq<Sight>, set<Key>) {
    var (before, used) := FramesVisits(frames, |frames|, {});
    var (now, used2) := ReadVisits(read, mem, used);
    (before + now, used2)
  }

  lemma {:induction false} FramesFollow(frames: seq<Frame>, n: nat, g: HeapState)
    requires n <= |frames| && Inv(g, {})
    ensures Follows(g, AfterFrames(frames, n, g).0, FramesVisits(frames, n, g.used))
  {
    hide Inv, Led, AfterFields, FieldVisits, Adds, FieldsSettled, FieldsG;
    FollowsNowhere(g, g);
    if n > 0 {
      FramesFollow(frames, n - 1, g);
      FramesDrawn(frames, n - 1, g);
      var (h, _) := AfterFrames(frames, n - 1, g);
      var f := frames[n - 1];
      FieldsFollow(Struct(None, "", f), f, |f|, 0, h, {});
      FieldsDrawn(Struct(None, "", f), f, |f|, 0, h, {});
      FollowsTransitive(g, h, AfterFields(Struct(None, "", f), f, |f|, 0, h).0, FramesVisits(frames, n - 1, g.used),
        FieldVisits(Struct(None, "", f), f, |f|, 0, h.used));
    }
  }

  lemma {:induction false} ExpandFollows(e: Expansion, mem: Memory, seen: set<nat>, g: HeapState)
    requires |e.read| <= MAX_EXPANDED_PER_STEP && Inv(e.h, {}) && Follows(g, e.h, ReadVisits(e.read, mem, g.used))
    ensures var r := Expand(e, mem, seen); Follows(g, r.h, ReadVisits(r.read, mem, g.used))
    decreases MAX_EXPANDED_PER_STEP - |e.read|, |e.h.pending|
  {
    hide Inv, Led, AfterValue, Visits, Adds, Keeps, SlotSettled, SlotG;
    if !Rests(e) {
      var v, next := e.h.pending[0], Turn(e);
      assert Keeps(e.h, e.h) by {
        KeepsReflexive(e.h, {});
      }
      PopKeepsInv(e.h, e.h, next.h);
      if !v.Pointer? || v.target == 0 || v.target in seen || v.target in e.h.byAddress {
        ExpandFollows(next, mem, seen, g);
      } else if !Readable(mem, v) {
        ExpandFollows(next, mem, seen + {v.target}, g);
      } else {
        var r := Reads(next, mem, v);
        assert r.read[..|e.read|] == e.read;
        ValueFollows(Pointee(mem, v), 0, next.h, {});
        ValueDrawn(Pointee(mem, v), 0, next.h, {});
        FollowsTransitive(g, next.h, r.h, ReadVisits(e.read, mem, g.used), Visits(Pointee(mem, v), 0, next.h.used));
        ExpandFollows(r, mem, seen + {v.target}, g);
      }
    }
  }

  /** After the snapshot of any frames, every recorded address leads to the last aggregate that
      was met there. */
  lemma ShotFollows(reg: Reg, left: nat, frames: seq<Frame>, mem: Memory)
    requires RegistryOk(reg.ids, reg.counter, reg.names)
    ensures var e := Shoot(reg, left, frames, mem).e;
            e.h.used == StepVisits(frames, e.read, mem).1
              && Led(map[], e.h.byAddress, StepVisits(frames, e.read, mem).0, e.h.ids)
  {
    hide Inv, Led, AfterFrames, Expand, Adds, ReadVisits, FramesVisits, KeysWithin, Keeps, AllResolved, ReadOk,
         ReadsExactly, TurnsMet, Rests, FrameDrawn;
    var g := StateOf(reg, map[]);
    EmptyIsInv(reg);
    FramesFollow(frames, |frames|, g);
    FramesDrawn(frames, |frames|, g);
    var (h, _) := AfterFrames(frames, |frames|, g);
    FollowsNowhere(h, h);
    assert ReadVisits([], mem, h.used) == ([], h.used) by {
      NoReads(mem, h.used);
    }
    ExpandFollows(StartOf(h, left), mem, {}, h);
    AddedAllPending(g, h, mem);
    ExpansionResolves(h, left, mem);
    var e := AfterExpansion(h, left, mem);
    KeptIds(h, e.h);
    LedTransitive(map[], h.byAddress, e.h.byAddress, FramesVisits(frames, |frames|, {}).0,
      ReadVisits(e.read, mem, h.used).0, h.ids, e.h.ids);
  }

  lemma NoReads(mem: Memory, used: set<Key>)
    ensures ReadVisits([], mem, used) == ([], used)
  {
  }

  lemma KeptIds(g: HeapState, h: HeapState)
    requires Keeps(g, h)
    ensures forall k | k in g.ids :: k in h.ids && h.ids[k] == g.ids[k]
  {
  }

  // ---- which aggregates are met ------------------------------------------------------------------

  ghost predicate PartsClosed(places: iset<Sight>) {
    forall x, w | x in places && IsPart(w, x.0) :: (w, x.1 + 1) in places
  }

  /** What was met is boxed, and lies in any set closed under drawn parts. */
  ghost predicate MetIn(r: (seq<Sight>, set<Key>), used: set<Key>, places: iset<Sight>) {
    && used <= r.1
    && forall x | x in r.0 :: x in places && KeyOf(x.0).Some? && KeyOf(x.0).value in r.1
  }

  lemma {:induction false} VisitsMet(v: GValue, depth: nat, used: set<Key>, places: iset<Sight>)
    requires PartsClosed(places) && (v, depth) in places
    ensures MetIn(Visits(v, depth, used), used, places)
    decreases v, 2, 0
  {
    hide PartVisits, PartsClosed;
    if KeyOf(v).Some? && depth < MAX_DEPTH && KeyOf(v).value !in used && |used| < MAX_HEAP_OBJECTS {
      PartVisitsMet(v, depth, used + {KeyOf(v).value}, places);
    }
  }

  lemma {:induction false} PartVisitsMet(v: GValue, depth: nat, used: set<Key>, places: iset<Sight>)
    requires PartsClosed(places) && (v, depth) in places
    ensures MetIn(PartVisits(v, depth, used), used, places)
    decreases v, 1, 0
  {
    hide CellVisits, FieldVisits, PartsClosed;
    match v
    case Struct(_, _, fields) => FieldVisitsMet(v, fields, Drawn(v), depth, used, places);
    case Array(_, _, cells) => CellVisitsMet(v, cells, Drawn(v), depth, used, places);
    case Slice(_, _, _, _, _, cells) => CellVisitsMet(v, cells, Drawn(v), depth, used, places);
    case _ =>
  }

  lemma {:induction false} CellVisitsMet(v: GValue, cells: seq<Option<GValue>>, n: nat, depth: nat, used: set<Key>,
                                         places: iset<Sight>)
    requires PartsClosed(places) && (v, depth) in places && (v.Array? || v.Slice?) && cells == v.cells && n <= Drawn(v)
    ensures MetIn(CellVisits(v, cells, n, depth + 1, used), used, places)
    decreases v, 0, n
  {
    hide Visits;
    if n > 0 {
      CellVisitsMet(v, cells, n - 1, depth, used, places);
      if n - 1 < |cells| && cells[n - 1].Some? {
        assert IsPart(cells[n - 1].value, (v, depth).0);
        VisitsMet(cells[n - 1].value, depth + 1, CellVisits(v, cells, n - 1, depth + 1, used).1, places);
      }
    }
  }

  lemma {:induction false} FieldVisitsMet(v: GValue, fs: seq<(Option<string>, Option<GValue>)>, n: nat, depth: nat,
                                          used: set<Key>, places: iset<Sight>)
    requires PartsClosed(places) && (v, depth) in places && v.Struct? && fs == v.fields && n <= Drawn(v)
    ensures MetIn(FieldVisits(v, fs, n, depth + 1, used), used, places)
    decreases v, 0, n
  {
    hide Visits;
    if n > 0 {
      FieldVisitsMet(v, fs, n - 1, depth, used, places);
      if fs[n - 1].0.Some? && fs[n - 1].1.Some? {
        assert IsPart(fs[n - 1].1.value, (v, depth).0);
        VisitsMet(fs[n - 1].1.value, depth + 1, FieldVisits(v, fs, n - 1, depth + 1, used).1, places);
      }
    }
  }

  lemma {:induction false} FrameVisitsMet(v: GValue, f: Frame, n: nat, used: set<Key>, places: iset<Sight>)
    requires PartsClosed(places) && v.Struct? && f == v.fields && n <= |f|
    requires forall i | 0 <= i < |f| && f[i].0.Some? && f[i].1.Some? :: (f[i].1.value, 0) in places
    ensures MetIn(FieldVisits(v, f, n, 0, used), used, places)
    decreases n
  {
    hide Visits;
    if n > 0 {
      FrameVisitsMet(v, f, n - 1, used, places);
      if f[n - 1].0.Some? && f[n - 1].1.Some? {
        VisitsMet(f[n - 1].1.value, 0, FieldVisits(v, f, n - 1, 0, used).1, places);
      }
    }
  }

  lemma {:induction false} FramesVisitsMet(frames: seq<Frame>, n: nat, used: set<Key>, places: iset<Sight>)
    requires PartsClosed(places) && HoldsFrames(places, frames) && n <= |frames|
    ensures MetIn(FramesVisits(frames, n, used), used, places)
  {
    hide FieldVisits, PartsClosed;
    if n > 0 {
      FramesVisitsMet(frames, n - 1, used, places);
      var f := frames[n - 1];
      assert f in frames;
      FrameVisitsMet(Struct(None, "", f), f, |f|, FramesVisits(frames, n - 1, used).1, places);
    }
  }

  lemma {:induction false} ReadVisitsMet(read: seq<(nat, string)>, mem: Memory, used: set<Key>, places: iset<Sight>)
    requires PartsClosed(places) && forall q | q in read && q in mem :: (mem[q], 0) in places
    ensures MetIn(ReadVisits(read, mem, used), used, places)
  {
    hide Visits, PartsClosed;
    if read != [] {
      ReadVisitsMet(read[..|read| - 1], mem, used, places);
      var q := read[|read| - 1];
      if q in mem {
        VisitsMet(mem[q], 0, ReadVisits(read[..|read| - 1], mem, used).1, places);
      }
    }
  }

  lemma StepVisitsMet(frames: seq<Frame>, read: seq<(nat, string)>, mem: Memory, places: iset<Sight>)
    requires PartsClosed(places) && HoldsFrames(places, frames)
    requires forall q | q in read && q in mem :: (mem[q], 0) in places
    ensures MetIn(StepVisits(frames, read, mem), {}, places)
  {
    hide ReadVisits, FramesVisits, PartsClosed, HoldsFrames;
    FramesVisitsMet(frames, |frames|, {}, places);
    ReadVisitsMet(read, mem, FramesVisits(frames, |frames|, {}).1, places);
  }

  predicate Anywhere(x: Sight) { true }

  /** Any sight at all: a set closed under everything. */
  ghost function Everywhere(): iset<Sight> {
    iset x: Sight | Anywhere(x)
  }

  // ---- exactly when a link leads to what the pointer points to -------------------------------------

  /** The pointer is linked to the box of the value it points to. */
  ghost predicate LeadsHome(h: HeapState, mem: Memory, p: GValue)
    requires Drawable(mem, p)
  {
    var w := Pointee(mem, p);
    && KeyOf(w).value in h.used && KeyOf(w).value in h.ids
    && LinkSlot(PtrSlot(p.target), h.byAddress) == RefSlot(h.ids[KeyOf(w).value])
  }

  /** In every snapshot a pointer is linked to the box of what it points to if and only if that was
      the last aggregate met at its address. */
  lemma LinkLeadsHomeIff(reg: Reg, left: nat, frames: seq<Frame>, mem: Memory, p: GValue)
    requires RegistryOk(reg.ids, reg.counter, reg.names) && Drawable(mem, p)
    ensures var e := Shoot(reg, left, frames, mem).e;
            var last := Resident(StepVisits(frames, e.read, mem).0, p.target);
            LeadsHome(e.h, mem, p) <==> last.Some? && KeyOf(last.value.0) == KeyOf(Pointee(mem, p))
  {
    hide Shoot, StepVisits, ShotDraws, Keeps;
    ShotIsDrawn(reg, left, frames, mem);
    ShotFollows(reg, left, frames, mem);
    var e := Shoot(reg, left, frames, mem).e;
    StepVisitsMet(frames, e.read, mem, Everywhere());
    RegistryOfDrawn(Shoot(reg, left, frames, mem), frames, mem);
    ResidentIs(StepVisits(frames, e.read, mem).0, p.target);
    HomeIff(e.h, mem, p, StepVisits(frames, e.read, mem).0);
  }

  lemma RegistryOfDrawn(shot: Shot, frames: seq<Frame>, mem: Memory)
    requires ShotDraws(shot, frames, mem)
    ensures RegistryOk(shot.e.h.ids, shot.e.h.counter, shot.e.h.names)
  {
    hide RegistryOk, DrawnOk, UsedOk, QueueOk, AllResolved;
  }

  lemma HomeIff(h: HeapState, mem: Memory, p: GValue, visits: seq<Sight>)
    requires Drawable(mem, p) && RegistryOk(h.ids, h.counter, h.names) && Led(map[], h.byAddress, visits, h.ids)
    requires forall x | x in visits :: KeyOf(x.0).Some? && KeyOf(x.0).value in h.used
    requires Resident(visits, p.target).Some? ==> Resident(visits, p.target).value in visits
    ensures LeadsHome(h, mem, p) <==>
              Resident(visits, p.target).Some? && KeyOf(Resident(visits, p.target).value.0) == KeyOf(Pointee(mem, p))
  {
    hide KeyOf, SelfAddr, Resident;
  }

  /** The same when a returned value is drawn into an earlier step. */
  lemma NoteFollows(reg: Reg, left: nat, before: map<Id, GBox>, returned: GValue, mem: Memory)
    requires Fits(reg, before)
    ensures var e := Annotated(reg, left, before, returned, mem).e;
            var first := Visits(returned, 0, KeysWithin(reg.ids, before.Keys));
            var later := ReadVisits(e.read, mem, first.1);
            e.h.used == later.1 && Led(map[], e.h.byAddress, first.0 + later.0, e.h.ids)
  {
    hide Inv, Led, AfterValue, Expand, Adds, ReadVisits, Visits, KeysWithin, Keeps, AllResolved, ReadOk,
         ReadsExactly, TurnsMet, Rests, SlotSettled, SlotG;
    var g := StateOf(reg, before);
    StateIsInv(reg, before);
    ValueFollows(returned, 0, g, {});
    ValueDrawn(returned, 0, g, {});
    var (h, _) := AfterValue(returned, 0, g);
    FollowsNowhere(h, h);
    assert ReadVisits([], mem, h.used) == ([], h.used) by {
      NoReads(mem, h.used);
    }
    ExpandFollows(StartOf(h, left), mem, {}, h);
    AddedAllPending(g, h, mem);
    ExpansionResolves(h, left, mem);
    var e := AfterExpansion(h, left, mem);
    KeptIds(h, e.h);
    LedTransitive(map[], h.byAddress, e.h.byAddress, Visits(returned, 0, g.used).0,
      ReadVisits(e.read, mem, h.used).0, h.ids, e.h.ids);
  }

  lemma NoteLinkLeadsHomeIff(reg: Reg, left: nat, before: map<Id, GBox>, returned: GValue, mem: Memory, p: GValue)
    requires Fits(reg, before) && Drawable(mem, p)
    ensures var e := Annotated(reg, left, before, returned, mem).e;
            var first := Visits(returned, 0, KeysWithin(reg.ids, before.Keys));
            var last := Resident(first.0 + ReadVisits(e.read, mem, first.1).0, p.target);
            LeadsHome(e.h, mem, p) <==> last.Some? && KeyOf(last.value.0) == KeyOf(Pointee(mem, p))
  {
    hide Annotated, ReadVisits, Visits, NoteDraws, Keeps, KeysWithin, KeyOf;
    NoteIsDrawn(reg, left, before, returned, mem);
    NoteFollows(reg, left, before, returned, mem);
    var e := Annotated(reg, left, before, returned, mem).e;
    var first := Visits(returned, 0, KeysWithin(reg.ids, before.Keys));
    VisitsMet(returned, 0, KeysWithin(reg.ids, before.Keys), Everywhere());
    ReadVisitsMet(e.read, mem, first.1, Everywhere());
    RegistryOfNote(Annotated(reg, left, before, returned, mem), before, returned, mem);
    ResidentIs(first.0 + ReadVisits(e.read, mem, first.1).0, p.target);
    HomeIff(e.h, mem, p, first.0 + ReadVisits(e.read, mem, first.1).0);
  }

  lemma RegistryOfNote(note: Note, before: map<Id, GBox>, returned: GValue, mem: Memory)
    requires NoteDraws(note, before, returned, mem)
    ensures RegistryOk(note.e.h.ids, note.e.h.counter, note.e.h.names)
  {
    hide RegistryOk, DrawnOk, UsedOk, QueueOk, AllResolved;
  }

  /** Decided on the value alone, before it is drawn: a new aggregate is what its own address leads
      to afterwards if and only if none of the parts that are met lives at that address. */
  lemma DrawnLeadsHomeIff(v: GValue, depth: nat, g: HeapState, open: set<Id>)
    requires Inv(g, open) && KeyOf(v).Some? && SelfAddr(v) != 0 && depth < MAX_DEPTH
    requires KeyOf(v).value !in g.used && |g.used| < MAX_HEAP_OBJECTS
    requires forall x | x in PartVisits(v, depth, g.used + {KeyOf(v).value}).0 :: KeyOf(x.0) != KeyOf(v)
    ensures var (h, t) := (AfterValue(v, depth, g).0, SelfAddr(v));
            t in h.byAddress &&
            (IdOf(v, h.ids) == Some(h.byAddress[t]) <==>
             forall x | x in PartVisits(v, depth, g.used + {KeyOf(v).value}).0 :: SelfAddr(x.0) != t)
  {
    hide Inv, AfterValue, KeyOf, SelfAddr, PartVisits, Resident, Adds, SlotSettled, SlotG;
    var (h, t) := (AfterValue(v, depth, g).0, SelfAddr(v));
    var inner := PartVisits(v, depth, g.used + {KeyOf(v).value}).0;
    ValueFollows(v, depth, g, open);
    ValueDrawn(v, depth, g, open);
    KeysTell(h, open);
    ResidentOfBoth([(v, depth)], inner, t);
    ResidentIs(inner, t);
    ResidentIs([(v, depth)], t);
    assert [(v, depth)][0] == (v, depth);
    VisitsMet(v, depth, g.used, Everywhere());
  }

  lemma KeysTell(h: HeapState, open: set<Id>)
    requires Inv(h, open)
    ensures forall j, k | j in h.ids && k in h.ids && h.ids[j] == h.ids[k] :: j == k
  {
    hide UsedOk, QueueOk, DrawnOk;
  }

  /** So a struct whose first part is an aggregate never is: that part has the struct's address. */
  lemma FirstPartTakesTheLink(v: GValue, depth: nat, g: HeapState, open: set<Id>)
    requires Inv(g, open) && v.Struct? && SelfAddr(v) != 0 && depth + 1 < MAX_DEPTH
    requires v.fields != [] && v.fields[0].0.Some? && v.fields[0].1.Some?
    requires var part := v.fields[0].1.value; KeyOf(part).Some? && SelfAddr(part) == SelfAddr(v)
    requires KeyOf(v).value !in g.used && |g.used| + 1 < MAX_HEAP_OBJECTS
    requires forall x | x in PartVisits(v, depth, g.used + {KeyOf(v).value}).0 :: KeyOf(x.0) != KeyOf(v)
    ensures var h := AfterValue(v, depth, g).0;
            SelfAddr(v) in h.byAddress && IdOf(v, h.ids) != Some(h.byAddress[SelfAddr(v)])
  {
    hide Inv, AfterValue, SelfAddr;
    var used := g.used + {KeyOf(v).value};
    DrawnLeadsHomeIff(v, depth, g, open);
    FirstPartIsMet(v, v.fields, Drawn(v), depth, used);
  }

  lemma {:induction false} FirstPartIsMet(v: GValue, fs: seq<(Option<string>, Option<GValue>)>, n: nat, depth: nat,
                                          used: set<Key>)
    requires v.Struct? && fs == v.fields && 0 < n <= |fs| && fs[0].0.Some? && fs[0].1.Some?
    requires KeyOf(fs[0].1.value).Some? && depth + 1 < MAX_DEPTH && |used| < MAX_HEAP_OBJECTS
    ensures (fs[0].1.value, depth + 1) in FieldVisits(v, fs, n, depth + 1, used).0
  {
    hide KeyOf, PartVisits;
    if n > 1 {
      FirstPartIsMet(v, fs, n - 1, depth, used);
    } else {
      assert FieldVisits(v, fs, 0, depth + 1, used) == ([], used);
    }
  }

  // ---- values with one key ---------------------------------------------------------------------------

  /** Of two values with one key the second is not drawn: its slot refers to the box of the first,
      whatever the second holds. */
  lemma SharedKeyDrawsTheFirst(v: GValue, w: GValue, depth: nat, g: HeapState, open: set<Id>)
    requires Inv(g, open) && KeyOf(v).Some? && KeyOf(w) == KeyOf(v) && depth < MAX_DEPTH
    requires KeyOf(v).value !in g.used && |g.used| < MAX_HEAP_OBJECTS
    ensures var (h, first) := AfterValue(v, depth, g); var (h2, second) := AfterValue(w, depth, h);
            first.RefSlot? && second == first && h2.boxes == h.boxes && h2.origin == h.origin
  {
    hide Inv, AfterValue, KeyOf, Adds, SlotSettled, SlotG, Led, PartVisits;
    var (h, first) := AfterValue(v, depth, g);
    ValueDrawn(v, depth, g, open);
    ValueFollows(v, depth, g, open);
    VisitsMet(v, depth, g.used, Everywhere());
    assert (v, depth) in Visits(v, depth, g.used).0;
    KeysRegistered(h, open);
    SlotOfKey(v, KeyOf(v).value, depth, h);
    MetAgain(w, depth, h, open);
  }

  lemma MetAgain(w: GValue, depth: nat, h: HeapState, open: set<Id>)
    requires Inv(h, open) && KeyOf(w).Some? && KeyOf(w).value in h.used && KeyOf(w).value in h.ids && depth < MAX_DEPTH
    ensures var (h2, slot) := AfterValue(w, depth, h);
            slot == RefSlot(h.ids[KeyOf(w).value]) && h2.boxes == h.boxes && h2.origin == h.origin
  {
    hide Inv, AfterContents, AfterIdentify;
    IdentifiedOrFull(h, w, KeyOf(w).value, open);
    BoxedIffUsed(h, KeyOf(w).value, h.ids[KeyOf(w).value], open);
    var (h1, rid) := AfterIdentify(w, KeyOf(w).value, h);
    assert rid == Some(h.ids[KeyOf(w).value]) && rid.value in h1.boxes;
    assert AfterValue(w, depth, h) == AfterBox(w, KeyOf(w).value, depth, h);
    assert AfterBox(w, KeyOf(w).value, depth, h) == (h1, RefSlot(rid.value));
  }

  // ---- exactly when an address that is first reached by a pointer gets its box -----------------------

  /** No part of the value that is boxed lives at `t`. */
  ghost predicate Avoids(v: GValue, t: nat) {
    && (KeyOf(v).Some? ==> SelfAddr(v) != t)
    && match v
       case Struct(_, _, fields) => forall i | 0 <= i < |fields| && fields[i].1.Some? :: Avoids(fields[i].1.value, t)
       case Array(_, _, cells) => forall i | 0 <= i < |cells| && cells[i].Some? :: Avoids(cells[i].value, t)
       case Slice(_, _, _, _, _, cells) => forall i | 0 <= i < |cells| && cells[i].Some? :: Avoids(cells[i].value, t)
       case _ => true
  }

  /** What lives at `t` is not also a part of something else that can be read. */
  ghost predicate Alone(mem: Memory, t: nat) {
    forall q | q in mem :: Avoids(mem[q], t) || (q.0 == t && Drawable(mem, Pointer(q.0, Some(q.1))))
  }

  lemma AvoidingIsClosed(t: nat)
    ensures PartsClosed(iset x: Sight | Avoids(x.0, t))
  {
    var places := iset x: Sight | Avoids(x.0, t);
    forall x, w | x in places && IsPart(w, x.0) ensures (w, x.1 + 1) in places {
      assert Avoids(x.0, t);
    }
  }

  /** The order of the turns matters.  When the first waiting pointer to `t` leads to nothing
      drawable, `t` gets no box, whatever pointers come later, and whatever the budgets. */
  lemma UndrawableFirstShadows(h: HeapState, left: nat, mem: Memory, t: nat)
    requires Inv(h, {}) && AllResolved(h, mem, []) && Turned(h.pending, t) && t !in h.byAddress && Alone(mem, t)
    requires !Drawable(mem, First(h.pending, t))
    ensures t !in AfterExpansion(h, left, mem).h.byAddress
  {
    hide Inv, Led, Expand, ReadVisits, Avoids, Drawable, AllResolved, FirstAt, KeyOf, SelfAddr, PartsClosed;
    var e := AfterExpansion(h, left, mem);
    FirstPointerDecides(h, left, mem, t);
    PendingIsMet(h, First(h.pending, t));
    FollowsNowhere(h, h);
    NoReads(mem, h.used);
    ExpandFollows(StartOf(h, left), mem, {}, h);
    var places := iset x: Sight | Avoids(x.0, t);
    AvoidingIsClosed(t);
    forall q | q in e.read && q in mem ensures (mem[q], 0) in places {
      if q.0 == t {
        assert First(h.pending, t) == Pointer(q.0, Some(q.1));
      }
    }
    ReadVisitsMet(e.read, mem, h.used, places);
    var visits := ReadVisits(e.read, mem, h.used).0;
    ResidentIs(visits, t);
    forall x | x in visits ensures SelfAddr(x.0) != t {
      AvoidsItself(x.0, t);
    }
    assert Led(h.byAddress, e.h.byAddress, visits, e.h.ids);
    NotLed(h.byAddress, e.h.byAddress, visits, e.h.ids, t);
  }

  lemma AvoidsItself(v: GValue, t: nat)
    requires Avoids(v, t) && KeyOf(v).Some?
    ensures SelfAddr(v) != t
  {
  }

  lemma NotLed(before: map<nat, Id>, after: map<nat, Id>, visits: seq<Sight>, ids: map<Key, Id>, t: nat)
    requires Led(before, after, visits, ids) && t !in before && Resident(visits, t).None?
    ensures t !in after
  {
  }

  /** Decided before the call: with no budget reached, `t` gets its box if and only if the first
      waiting pointer to it leads to something drawable. */
  lemma BoxedIffFirstIsDrawable(h: HeapState, left: nat, mem: Memory, t: nat)
    requires Inv(h, {}) && AllResolved(h, mem, []) && Turned(h.pending, t) && t !in h.byAddress && Alone(mem, t)
    requires Unhindered(AfterExpansion(h, left, mem).h)
    ensures t in AfterExpansion(h, left, mem).h.byAddress <==> Drawable(mem, First(h.pending, t))
  {
    hide Inv, Expand, Drawable, AllResolved, FirstAt, Alone, Unhindered;
    if Drawable(mem, First(h.pending, t)) {
      DrawableFirstIsBoxed(h, left, mem, t);
    } else {
      UndrawableFirstShadows(h, left, mem, t);
    }
  }
}
