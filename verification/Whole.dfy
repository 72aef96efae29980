/**
  A snapshot as a drawing of the program's graph: which boxes are of which values, and when the
  boxes are exactly the aggregates that the frames reach, with every pointer linked to what it
  points to.
 */
module Whole {
  import opened Options
  import opened GdbHeap
  import opened Pointers
  import opened Driver
  import opened Drawings
  import opened Grounding
  import opened Links

  // ---- what the frames reach ------------------------------------------------------------------

  ghost predicate IsVariable(x: Sight, frames: seq<Frame>) {
    x.1 == 0 && exists f: Frame, i :: f in frames && 0 <= i < |f| && f[i].0.Some? && f[i].1 == Some(x.0)
  }

  /** From a value to a part that is drawn in it, or through a pointer that can be followed. */
  ghost predicate IsStep(x: Sight, y: Sight, mem: Memory) {
    (IsPart(y.0, x.0) && y.1 == x.1 + 1) || (Readable(mem, x.0) && y == (Pointee(mem, x.0), 0))
  }

  ghost predicate IsPath(path: seq<Sight>, frames: seq<Frame>, mem: Memory) {
    && path != [] && IsVariable(path[0], frames)
    && forall i | 0 <= i < |path| - 1 :: IsStep(path[i], path[i + 1], mem)
  }

  ghost predicate Reached(x: Sight, frames: seq<Frame>, mem: Memory) {
    exists path :: IsPath(path, frames, mem) && path[|path| - 1] == x
  }

  ghost function Reach(frames: seq<Frame>, mem: Memory): iset<Sight> {
    iset x: Sight | Reached(x, frames, mem)
  }

  lemma OneStepMore(x: Sight, y: Sight, frames: seq<Frame>, mem: Memory)
    requires Reached(x, frames, mem) && IsStep(x, y, mem)
    ensures Reached(y, frames, mem)
  {
    hide IsStep, IsVariable;
    var path :| IsPath(path, frames, mem) && path[|path| - 1] == x;
    var more := path + [y];
    forall i | 0 <= i < |more| - 1 ensures IsStep(more[i], more[i + 1], mem) {
      if i < |path| - 1 {
        assert IsStep(path[i], path[i + 1], mem);
      }
    }
    assert more[|more| - 1] == y && IsPath(more, frames, mem);
  }

  lemma VariableReached(x: Sight, frames: seq<Frame>, mem: Memory)
    requires IsVariable(x, frames)
    ensures Reached(x, frames, mem)
  {
    var path := [x];
    assert IsPath(path, frames, mem) && path[|path| - 1] == x;
  }

  lemma ReachIsClosed(frames: seq<Frame>, mem: Memory)
    ensures ClosedUnder(Reach(frames, mem), mem) && PartsClosed(Reach(frames, mem))
    ensures HoldsFrames(Reach(frames, mem), frames)
  {
    hide Reached, IsPart;
    var places := Reach(frames, mem);
    forall x, w | x in places && IsPart(w, x.0) ensures (w, x.1 + 1) in places {
      OneStepMore(x, (w, x.1 + 1), frames, mem);
    }
    forall x | x in places && Readable(mem, x.0) ensures (Pointee(mem, x.0), 0) in places {
      OneStepMore(x, (Pointee(mem, x.0), 0), frames, mem);
    }
    forall f: Frame, i | f in frames && 0 <= i < |f| && f[i].0.Some? && f[i].1.Some?
      ensures (f[i].1.value, 0) in places
    {
      VariableReached((f[i].1.value, 0), frames, mem);
    }
  }

  // ---- which box is of which value -----------------------------------------------------------------

  /** Aggregates with one key are one value. */
  ghost predicate KeysTellValues(places: iset<Sight>) {
    forall x, y | x in places && y in places && KeyOf(x.0).Some? && KeyOf(x.0) == KeyOf(y.0) :: x.0 == y.0
  }

  /** The box behind the value's reference is the drawing of that value, at some depth at which
      the set has it. */
  ghost predicate BoxIsOf(shot: Shot, v: GValue, places: iset<Sight>)
    requires KeyOf(v).Some?
  {
    var h := shot.e.h;
    && KeyOf(v).value in h.ids && h.ids[KeyOf(v).value] in shot.boxes
    && exists depth :: (v, depth) in places
         && shot.boxes[h.ids[KeyOf(v).value]] == LinkBox(BoxG(v, depth, h.used, h.ids), h.byAddress)
  }

  /** Where keys tell values apart, the box that any value's slot refers to draws that value. */
  lemma BoxesDrawTheirValues(reg: Reg, left: nat, frames: seq<Frame>, mem: Memory, places: iset<Sight>, x: Sight)
    requires RegistryOk(reg.ids, reg.counter, reg.names)
    requires ClosedUnder(places, mem) && HoldsFrames(places, frames) && KeysTellValues(places)
    requires x in places && KeyOf(x.0).Some? && KeyOf(x.0).value in Shoot(reg, left, frames, mem).e.h.used
    ensures BoxIsOf(Shoot(reg, left, frames, mem), x.0, places)
  {
    hide Shoot, ClosedUnder, HoldsFrames, Keeps, BoxG, LinkBox, FrameSettled;
    ShotIsDrawn(reg, left, frames, mem);
    ShotWithin(reg, left, frames, mem, places);
    OriginTells(Shoot(reg, left, frames, mem), frames, mem, places, x);
  }

  lemma OriginTells(shot: Shot, frames: seq<Frame>, mem: Memory, places: iset<Sight>, x: Sight)
    requires ShotDraws(shot, frames, mem) && Within(shot.e.h, places) && KeysTellValues(places)
    requires x in places && KeyOf(x.0).Some? && KeyOf(x.0).value in shot.e.h.used
    ensures BoxIsOf(shot, x.0, places)
    ensures var r := IdOf(x.0, shot.e.h.ids);
            r.Some? && r.value in shot.e.h.origin && shot.e.h.origin[r.value] in places
            && shot.e.h.origin[r.value].0 == x.0 && DrawnOk(shot.e.h, r.value)
  {
    hide KeyOf, BoxG, BoxSettled, LinkBox, QueueOk, AllResolved, TurnsMet, Rests, ReadsExactly, ReadsDrawn,
         FrameSettled;
    var h := shot.e.h;
    var r := h.ids[KeyOf(x.0).value];
    assert OriginOk(h, r) && DrawnOk(h, r);
    SameKey(h, r, KeyOf(x.0).value);
    var (v, depth) := h.origin[r];
    assert (v, depth) in places && v == x.0;
  }

  lemma SameKey(h: HeapState, r: nat, key: Key)
    requires RegistryOk(h.ids, h.counter, h.names) && r in h.origin && OriginOk(h, r) && key in h.ids && h.ids[key] == r
    ensures KeyOf(h.origin[r].0) == Some(key)
  {
    hide KeyOf;
  }

  // ---- the whole graph ---------------------------------------------------------------------------

  /** The frames reach nothing that the drawing has to confuse or cut: aggregates with one key are
      one value, none is nested too deep, pointers to one place agree on its type, and nothing but
      what they point to lives there. */
  ghost predicate Plain(frames: seq<Frame>, mem: Memory) {
    var places := Reach(frames, mem);
    && KeysTellValues(places)
    && (forall x | x in places && KeyOf(x.0).Some? :: x.1 < MAX_DEPTH)
    && (forall x, y | x in places && y in places && Readable(mem, x.0) && LeadsTo(y.0, x.0.target) :: y.0 == x.0)
    && (forall x, y | x in places && y in places && Readable(mem, x.0) && KeyOf(y.0).Some?
                      && SelfAddr(y.0) == x.0.target :: KeyOf(y.0) == KeyOf(Pointee(mem, x.0)))
  }

  /** The value has its box, or the pointer was met. */
  ghost predicate Seen(h: HeapState, v: GValue) {
    && (KeyOf(v).Some? ==> KeyOf(v).value in h.used)
    && (v.Pointer? && v.target != 0 ==> v in h.met)
  }

  lemma SettledIsSeen(v: GValue, depth: nat, h: HeapState)
    requires SlotSettled(v, depth, h) && Unhindered(h) && (KeyOf(v).Some? ==> depth < MAX_DEPTH)
    ensures Seen(h, v)
  {
  }

  lemma VariableSeen(shot: Shot, frames: seq<Frame>, mem: Memory, x: Sight)
    requires ShotDraws(shot, frames, mem) && Unhindered(shot.e.h) && IsVariable(x, frames)
    ensures Seen(shot.e.h, x.0)
  {
    hide Expanded, SlotSettled, Seen, Unhindered;
    var f: Frame, i :| f in frames && 0 <= i < |f| && f[i].0.Some? && f[i].1 == Some(x.0);
    var j :| 0 <= j < |frames| && frames[j] == f;
    assert FrameSettled(frames[j], shot.e.h);
    SettledIsSeen(x.0, 0, shot.e.h);
  }

  lemma PartSeen(shot: Shot, frames: seq<Frame>, mem: Memory, x: Sight, y: Sight)
    requires ShotDraws(shot, frames, mem) && Unhindered(shot.e.h) && Within(shot.e.h, Reach(frames, mem))
    requires Plain(frames, mem) && Reached(x, frames, mem) && Seen(shot.e.h, x.0) && IsPart(y.0, x.0)
    ensures Seen(shot.e.h, y.0)
  {
    hide Reached, SlotSettled, Seen, Unhindered, Expanded, ShotDraws, Within, Readable, KeysTellValues, BoxG, BoxIsOf;
    PartsHaveKeys(x.0, y.0);
    var places := Reach(frames, mem);
    assert KeyOf(x.0).value in shot.e.h.used by {
      SeenIsUsed(shot.e.h, x.0);
    }
    OriginTells(shot, frames, mem, places, x);
    var depth := shot.e.h.origin[shot.e.h.ids[KeyOf(x.0).value]].1;
    assert (x.0, depth) in places;
    OneStepMore((x.0, depth), (y.0, depth + 1), frames, mem);
    PartSettled(x.0, y.0, depth, shot.e.h);
    SettledIsSeen(y.0, depth + 1, shot.e.h);
  }

  lemma SeenIsUsed(h: HeapState, v: GValue)
    requires Seen(h, v) && KeyOf(v).Some?
    ensures KeyOf(v).value in h.used
  {
  }

  lemma PartsHaveKeys(v: GValue, w: GValue)
    requires IsPart(w, v)
    ensures KeyOf(v).Some?
  {
  }

  lemma PartSettled(v: GValue, w: GValue, depth: nat, h: HeapState)
    requires IsPart(w, v) && BoxSettled(v, depth, h)
    ensures SlotSettled(w, depth + 1, h)
  {
    hide SlotSettled;
  }

  /** A pointer that was met had its turn, and what it leads to was read, or is recorded there. */
  lemma PointeeSeen(shot: Shot, frames: seq<Frame>, mem: Memory, left: nat, reg: Reg, x: Sight)
    requires RegistryOk(reg.ids, reg.counter, reg.names) && shot == Shoot(reg, left, frames, mem)
    requires ShotDraws(shot, frames, mem) && Unhindered(shot.e.h) && Within(shot.e.h, Reach(frames, mem))
    requires Plain(frames, mem) && Reached(x, frames, mem) && Seen(shot.e.h, x.0) && Readable(mem, x.0)
    ensures Seen(shot.e.h, Pointee(mem, x.0))
  {
    hide Reached, SlotSettled, Shoot, Inv, HasValue, KeysTellValues, FrameSettled, Drawable, FirstAt, KeyOf;
    var e, p, t := shot.e, x.0, x.0.target;
    var places := Reach(frames, mem);
    assert Turned(e.turns, t) && First(e.turns, t) == p by {
      TurnWasTaken(e, mem, places, p);
    }
    var q := (t, p.pointee.value);
    if q in e.read {
      SettledIsSeen(mem[q], 0, e.h);
    } else {
      assert !IsRead(q, e.turns, e.known, mem);
      assert t in e.h.byAddress;
      var y := ResidentReached(reg, left, frames, mem, t);
      hide Plain;
      assert KeyOf(y.0) == KeyOf(Pointee(mem, p)) by {
        PlainResident(frames, mem, x, y);
      }
      PointeeIsAggregate(Pointee(mem, p));
    }
  }

  lemma PointeeIsAggregate(v: GValue)
    requires KeyOf(v).Some?
    ensures !v.Pointer?
  {
  }

  lemma PlainResident(frames: seq<Frame>, mem: Memory, x: Sight, y: Sight)
    requires Plain(frames, mem) && x in Reach(frames, mem) && y in Reach(frames, mem)
    requires Readable(mem, x.0) && KeyOf(y.0).Some? && SelfAddr(y.0) == x.0.target
    ensures KeyOf(y.0) == KeyOf(Pointee(mem, x.0))
  {
    hide Reached, KeyOf, SelfAddr, KeysTellValues, Readable;
  }

  lemma TurnWasTaken(e: Expansion, mem: Memory, places: iset<Sight>, p: GValue)
    requires Expanded(e, mem) && Unhindered(e.h) && Within(e.h, places) && p in e.h.met && p.Pointer?
    requires forall y | y in places && LeadsTo(y.0, p.target) :: y.0 == p
    requires Readable(mem, p)
    ensures Turned(e.turns, p.target) && First(e.turns, p.target) == p
  {
    hide Inv, ReadsExactly, ReadsDrawn, FirstAt, Readable, Drawable, Resolved;
    var first := First(e.turns, p.target);
    assert first in e.turns && HasValue(places, first);
  }

  /** The last aggregate met at a recorded address is one that the frames reach. */
  lemma ResidentReached(reg: Reg, left: nat, frames: seq<Frame>, mem: Memory, t: nat) returns (y: Sight)
    requires RegistryOk(reg.ids, reg.counter, reg.names) && t in Shoot(reg, left, frames, mem).e.h.byAddress
    ensures y in Reach(frames, mem) && KeyOf(y.0).Some? && SelfAddr(y.0) == t
    ensures var h := Shoot(reg, left, frames, mem).e.h;
            KeyOf(y.0).value in h.used && IdOf(y.0, h.ids) == Some(h.byAddress[t])
  {
    hide Shoot, StepVisits, Reached, KeyOf, SelfAddr, ClosedUnder, PartsClosed, HoldsFrames, Within, Keeps;
    var shot := Shoot(reg, left, frames, mem);
    var places := Reach(frames, mem);
    ReachIsClosed(frames, mem);
    ShotIsDrawn(reg, left, frames, mem);
    ShotWithin(reg, left, frames, mem, places);
    ShotFollows(reg, left, frames, mem);
    ReadsReached(shot, frames, mem);
    StepVisitsMet(frames, shot.e.read, mem, places);
    var visits := StepVisits(frames, shot.e.read, mem).0;
    ResidentIs(visits, t);
    y := Resident(visits, t).value;
  }

  lemma ReadsReached(shot: Shot, frames: seq<Frame>, mem: Memory)
    requires ShotDraws(shot, frames, mem) && Within(shot.e.h, Reach(frames, mem))
    ensures forall q | q in shot.e.read && q in mem :: (mem[q], 0) in Reach(frames, mem)
  {
    hide Reached, Inv, AllResolved, FrameSettled, FirstAt;
    var places := Reach(frames, mem);
    forall q | q in shot.e.read && q in mem ensures (mem[q], 0) in places {
      assert IsRead(q, shot.e.turns, shot.e.known, mem);
      var p := shot.e.turns[FirstAt(shot.e.turns, q.0)];
      assert p in shot.e.h.met && HasValue(places, p);
      var x :| x in places && x.0 == p;
      OneStepMore(x, (mem[q], 0), frames, mem);
    }
  }

  lemma {:induction false} ReachedIsSeen(shot: Shot, frames: seq<Frame>, mem: Memory, left: nat, reg: Reg,
                                         path: seq<Sight>, n: nat)
    requires RegistryOk(reg.ids, reg.counter, reg.names) && shot == Shoot(reg, left, frames, mem)
    requires ShotDraws(shot, frames, mem) && Unhindered(shot.e.h) && Within(shot.e.h, Reach(frames, mem))
    requires Plain(frames, mem) && IsPath(path, frames, mem) && n < |path|
    ensures Reached(path[n], frames, mem) && Seen(shot.e.h, path[n].0)
  {
    hide Shoot, ShotDraws, Unhindered, Within, Plain, Seen, Reached, IsVariable, Readable;
    if n == 0 {
      VariableReached(path[0], frames, mem);
      VariableSeen(shot, frames, mem, path[0]);
    } else {
      ReachedIsSeen(shot, frames, mem, left, reg, path, n - 1);
      var x, y := path[n - 1], path[n];
      assert IsStep(x, path[n - 1 + 1], mem);
      OneStepMore(x, y, frames, mem);
      if IsPart(y.0, x.0) {
        PartSeen(shot, frames, mem, x, y);
      } else {
        PointeeSeen(shot, frames, mem, left, reg, x);
      }
    }
  }

  /** Every aggregate the frames reach has its box, and it draws that very value. */
  ghost predicate BoxesAll(shot: Shot, frames: seq<Frame>, mem: Memory) {
    forall x | x in Reach(frames, mem) && KeyOf(x.0).Some? ::
      KeyOf(x.0).value in shot.e.h.used && BoxIsOf(shot, x.0, Reach(frames, mem))
  }

  /** Every box draws an aggregate that the frames reach. */
  ghost predicate BoxesOnly(shot: Shot, frames: seq<Frame>, mem: Memory) {
    forall r | r in shot.boxes :: exists x :: x in Reach(frames, mem) && IdOf(x.0, shot.e.h.ids) == Some(r)
                                              && BoxIsOf(shot, x.0, Reach(frames, mem))
  }

  /** Every pointer to something drawable is linked to the box of what it points to. */
  ghost predicate LinksHome(shot: Shot, frames: seq<Frame>, mem: Memory) {
    forall x | x in Reach(frames, mem) && Drawable(mem, x.0) :: LeadsHome(shot.e.h, mem, x.0)
  }

  /** With no budget reached, and where the frames reach nothing confusing, the snapshot draws
      exactly the graph: a box for each aggregate reached and for nothing else, each the drawing
      of its value, and every pointer linked to what it points to. */
  lemma WholeGraphDrawn(reg: Reg, left: nat, frames: seq<Frame>, mem: Memory)
    requires RegistryOk(reg.ids, reg.counter, reg.names) && Plain(frames, mem)
    requires Unhindered(Shoot(reg, left, frames, mem).e.h)
    ensures var shot := Shoot(reg, left, frames, mem);
            BoxesAll(shot, frames, mem) && BoxesOnly(shot, frames, mem) && LinksHome(shot, frames, mem)
  {
    hide Shoot, ShotDraws, Unhindered, Within, Seen, Reached, BoxIsOf, IsPath, Keeps, Drawable, LeadsHome,
         ClosedUnder, HoldsFrames, PartsClosed, KeyOf;
    var shot := Shoot(reg, left, frames, mem);
    var places := Reach(frames, mem);
    ReachIsClosed(frames, mem);
    ShotIsDrawn(reg, left, frames, mem);
    ShotWithin(reg, left, frames, mem, places);
    forall x | x in places ensures Seen(shot.e.h, x.0) {
      var path := PathTo(x, frames, mem);
      ReachedIsSeen(shot, frames, mem, left, reg, path, |path| - 1);
    }
    forall x | x in places && KeyOf(x.0).Some?
      ensures KeyOf(x.0).value in shot.e.h.used && BoxIsOf(shot, x.0, places)
    {
      SeenIsUsed(shot.e.h, x.0);
      BoxesDrawTheirValues(reg, left, frames, mem, places, x);
    }
    assert BoxesOnly(shot, frames, mem) by {
      OnlyReached(shot, frames, mem);
    }
    forall x | x in places && Drawable(mem, x.0) ensures LeadsHome(shot.e.h, mem, x.0) {
      PointerLeadsHome(shot, frames, mem, left, reg, x);
    }
  }

  lemma PathTo(x: Sight, frames: seq<Frame>, mem: Memory) returns (path: seq<Sight>)
    requires x in Reach(frames, mem)
    ensures IsPath(path, frames, mem) && path[|path| - 1] == x
  {
    path :| IsPath(path, frames, mem) && path[|path| - 1] == x;
  }

  lemma OnlyReached(shot: Shot, frames: seq<Frame>, mem: Memory)
    requires ShotDraws(shot, frames, mem) && Within(shot.e.h, Reach(frames, mem)) && KeysTellValues(Reach(frames, mem))
    ensures BoxesOnly(shot, frames, mem)
  {
    hide KeyOf, BoxIsOf, Reached, KeysTellValues, AllResolved, TurnsMet, Rests, ReadsExactly, ReadsDrawn,
         QueueOk, DrawnOk, FrameSettled;
    var h := shot.e.h;
    forall r | r in shot.boxes
      ensures exists x ::
                x in Reach(frames, mem) && IdOf(x.0, h.ids) == Some(r) && BoxIsOf(shot, x.0, Reach(frames, mem))
    {
      assert OriginOk(h, r);
      var x := h.origin[r];
      assert x in Reach(frames, mem);
      OriginTells(shot, frames, mem, Reach(frames, mem), x);
    }
  }

  lemma PointerLeadsHome(shot: Shot, frames: seq<Frame>, mem: Memory, left: nat, reg: Reg, x: Sight)
    requires RegistryOk(reg.ids, reg.counter, reg.names) && shot == Shoot(reg, left, frames, mem)
    requires ShotDraws(shot, frames, mem) && Unhindered(shot.e.h) && Within(shot.e.h, Reach(frames, mem))
    requires Plain(frames, mem) && x in Reach(frames, mem) && Seen(shot.e.h, x.0) && Drawable(mem, x.0)
    ensures LeadsHome(shot.e.h, mem, x.0)
  {
    hide Reached, Shoot, HasValue, KeysTellValues, FrameSettled, FirstAt, KeyOf, SelfAddr, UsedOk, RegistryOk,
         DrawnOk;
    var e, p, t := shot.e, x.0, x.0.target;
    assert Turned(e.turns, t) && First(e.turns, t) == p by {
      TurnWasTaken(e, mem, Reach(frames, mem), p);
    }
    assert t in e.h.byAddress;
    var y := ResidentReached(reg, left, frames, mem, t);
    PlainResident(frames, mem, x, y);
  }
}
