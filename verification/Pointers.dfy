/**
  What the end of a step does with the pointers it met: `_expande_ponteiros` gives a box to
  what they reach, breadth first and under three budgets, and `_liga_ponteiros` turns an
  address into a reference when a box lives there.
 */
module Pointers {
  import opened Options
  import opened HeapDelta
  import opened GdbHeap

  const MAX_EXPANDED_PER_STEP := 32
  const MAX_EXPANSIONS_PER_TRACE := 600

  /** What dereferencing gives: an address read as a type. */
  type Memory = map<(nat, string), GValue>

  /** What is left of the trace's budget of expansions (`_orcamento`). */
  class Budget {
    var left: nat

    constructor ()
      ensures left == MAX_EXPANSIONS_PER_TRACE
    {
      left := MAX_EXPANSIONS_PER_TRACE;
    }
  }

  // ---- expansion -------------------------------------------------------------------

  /** The pointer is not nil and declared to lead to an aggregate, and reading that gives something. */
  predicate Readable(mem: Memory, p: GValue) {
    p.Pointer? && p.target != 0 && p.pointee.Some? && (p.target, p.pointee.value) in mem
  }

  function Pointee(mem: Memory, p: GValue): GValue
    requires Readable(mem, p)
  {
    mem[(p.target, p.pointee.value)]
  }

  /** What the pointer leads to is boxed and recorded under the pointer's own address. */
  predicate Drawable(mem: Memory, p: GValue) {
    Readable(mem, p) && SelfAddr(Pointee(mem, p)) == p.target && KeyOf(Pointee(mem, p)).Some?
  }

  predicate LeadsTo(p: GValue, t: nat) {
    p.Pointer? && p.target == t
  }

  /** The place of the first pointer to `t`; the length when there is none. */
  function FirstAt(turns: seq<GValue>, t: nat): (i: nat)
    ensures i <= |turns| && (i < |turns| ==> LeadsTo(turns[i], t))
    ensures forall j | 0 <= j < i :: !LeadsTo(turns[j], t)
  {
    if turns == [] || LeadsTo(turns[0], t) then 0 else 1 + FirstAt(turns[1..], t)
  }

  predicate Turned(turns: seq<GValue>, t: nat) {
    FirstAt(turns, t) < |turns|
  }

  /** The first pointer to `t` that had its turn. */
  function First(turns: seq<GValue>, t: nat): GValue
    requires Turned(turns, t)
  {
    turns[FirstAt(turns, t)]
  }

  lemma FirstStays(turns: seq<GValue>, more: seq<GValue>, t: nat)
    requires turns <= more && Turned(turns, t)
    ensures Turned(more, t) && FirstAt(more, t) == FirstAt(turns, t) && First(more, t) == First(turns, t)
  {
    hide FirstAt;
    assert forall k | 0 <= k < |turns| :: LeadsTo(more[k], t) == LeadsTo(turns[k], t);
  }

  lemma NewFirst(turns: seq<GValue>, v: GValue, t: nat)
    requires !Turned(turns, t)
    ensures Turned(turns + [v], t) <==> LeadsTo(v, t)
    ensures LeadsTo(v, t) ==> FirstAt(turns + [v], t) == |turns| && First(turns + [v], t) == v
  {
    hide FirstAt;
    var more := turns + [v];
    assert more[|turns|] == v;
    assert forall k | 0 <= k < |turns| :: LeadsTo(more[k], t) == LeadsTo(turns[k], t);
  }

  /** Why an address that had its turn has no box: the step is full, or the first pointer to
      it does not lead to something drawable, and the later ones were then skipped. */
  ghost predicate Resolved(h: HeapState, mem: Memory, turns: seq<GValue>, t: nat) {
    || t in h.byAddress
    || |h.used| == MAX_HEAP_OBJECTS
    || (Turned(turns, t) && !Drawable(mem, First(turns, t)))
  }

  ghost predicate AllResolved(h: HeapState, mem: Memory, turns: seq<GValue>) {
    forall p | p in h.met && p !in h.pending ::
      p.Pointer? && Turned(turns, p.target) && Resolved(h, mem, turns, p.target)
  }

  /** Each address in `read` was dereferenced once and had no box before. */
  ghost predicate ReadOk(read: seq<(nat, string)>, g: HeapState) {
    && (forall i, j | 0 <= i < j < |read| :: read[i].0 != read[j].0)
    && (forall i | 0 <= i < |read| :: read[i].0 !in g.byAddress)
  }

  /** What is read is exactly this: the first pointer to the address leads to an aggregate that
      can be read, and nothing was boxed at that address when the pointer had its turn. */
  ghost predicate IsRead(q: (nat, string), turns: seq<GValue>, known: seq<set<nat>>, mem: Memory) {
    var i := FirstAt(turns, q.0);
    q.0 != 0 && i < |turns| && i < |known| && turns[i].pointee == Some(q.1) && q in mem && q.0 !in known[i]
  }

  ghost predicate ReadsExactly(read: seq<(nat, string)>, turns: seq<GValue>, known: seq<set<nat>>, mem: Memory) {
    |known| == |turns| && forall q :: q in read <==> IsRead(q, turns, known, mem)
  }

  /** Where an expansion stands: the heap, what is left of the trace's budget, what was read,
      the pointers that have had their turn, in order, and the boxed addresses at each turn. */
  datatype Expansion = Expansion(
    h: HeapState, left: nat, read: seq<(nat, string)>, turns: seq<GValue>, known: seq<set<nat>>)

  /** Nothing more is expanded: no pointer waits, or one of the three budgets is used up. */
  predicate Rests(e: Expansion) {
    e.h.pending == [] || |e.h.used| >= MAX_HEAP_OBJECTS || |e.read| >= MAX_EXPANDED_PER_STEP || e.left == 0
  }

  function Turn(e: Expansion): Expansion
    requires e.h.pending != []
  {
    e.(h := e.h.(pending := e.h.pending[1..]), turns := e.turns + [e.h.pending[0]],
       known := e.known + [e.h.byAddress.Keys])
  }

  /** Taking turns until nothing more is expanded; `seen` are the addresses that were looked at. */
  function Expand(e: Expansion, mem: Memory, seen: set<nat>): Expansion
    requires |e.read| <= MAX_EXPANDED_PER_STEP
    decreases MAX_EXPANDED_PER_STEP - |e.read|, |e.h.pending|
  {
    if Rests(e) then e
    else
      var v, next := e.h.pending[0], Turn(e);
      if !v.Pointer? || v.target == 0 || v.target in seen || v.target in e.h.byAddress then Expand(next, mem, seen)
      else if !Readable(mem, v) then Expand(next, mem, seen + {v.target})
      else Expand(Reads(next, mem, v), mem, seen + {v.target})
  }

  function Reads(e: Expansion, mem: Memory, p: GValue): Expansion
    requires Readable(mem, p) && e.left > 0
  {
    e.(h := AfterValue(Pointee(mem, p), 0, e.h).0, left := e.left - 1, read := e.read + [(p.target, p.pointee.value)])
  }

  function StartOf(h: HeapState, left: nat): Expansion {
    Expansion(h, left, [], [], [])
  }

  function AfterExpansion(h: HeapState, left: nat, mem: Memory): Expansion {
    Expand(StartOf(h, left), mem, {})
  }

  /** `_expande_ponteiros`.  It ends on every pointer graph: a turn shortens the queue, and
      only an expansion, of which there are at most 32, can lengthen it. */
  method ExpandPointers(heap: Heap, budget: Budget, mem: Memory) returns (read: seq<(nat, string)>)
    modifies heap, heap.registry, budget
    ensures var e := AfterExpansion(old(heap.St()), old(budget.left), mem);
            && heap.St() == e.h && budget.left == e.left && read == e.read
            && Resolves(old(heap.St()), old(budget.left), e, mem)
  {
    hide AfterValue, Resolves;
    ExpansionGives(heap.St(), budget.left, mem);
    ghost var turns: seq<GValue> := [];
    ghost var known: seq<set<nat>> := [];
    var seen: set<nat> := {};
    var expanded := 0;
    read := [];
    while heap.pending != [] && |heap.used| < MAX_HEAP_OBJECTS
          && expanded < MAX_EXPANDED_PER_STEP && budget.left > 0
      invariant expanded == |read| <= MAX_EXPANDED_PER_STEP
      invariant Expand(Expansion(heap.St(), budget.left, read, turns, known), mem, seen)
             == AfterExpansion(old(heap.St()), old(budget.left), mem)
      decreases MAX_EXPANDED_PER_STEP - expanded, |heap.pending|
    {
      ghost var e := Expansion(heap.St(), budget.left, read, turns, known);
      var v := heap.pending[0];
      heap.pending := heap.pending[1..];
      turns, known := turns + [v], known + [heap.byAddress.Keys];
      assert Turn(e) == Expansion(heap.St(), budget.left, read, turns, known);
      if !v.Pointer? || v.target == 0 || v.target in seen || v.target in heap.byAddress {
        continue;
      }
      seen := seen + {v.target};
      if v.pointee.None? || (v.target, v.pointee.value) !in mem {
        continue;
      }
      var slot := heap.ValueV2(mem[(v.target, v.pointee.value)], 0);
      expanded := expanded + 1;
      budget.left := budget.left - 1;
      read := read + [(v.target, v.pointee.value)];
      assert Reads(Turn(e), mem, v) == Expansion(heap.St(), budget.left, read, turns, known);
    }
  }

  /** What holds after every turn, since the state `g` in which the expansion began: the turns
      were taken by pointers that were met, and a pointer is dropped only by a full queue. */
  ghost predicate Going(e: Expansion, mem: Memory, seen: set<nat>, g: HeapState) {
    && Inv(e.h, {}) && Keeps(g, e.h)
    && ReadOk(e.read, g) && ReadsExactly(e.read, e.turns, e.known, mem)
    && AllResolved(e.h, mem, e.turns) && SeenOk(seen, e.read, e.h, mem, e.turns)
    && TurnsMet(e) && DropsWhenFull(e, g) && ReadsDrawn(e, mem)
  }

  /** What was read is drawn, and an address that was recorded stays so. */
  ghost predicate ReadsDrawn(e: Expansion, mem: Memory) {
    && (forall q | q in e.read :: q in mem && SlotSettled(mem[q], 0, e.h))
    && forall i | 0 <= i < |e.known| :: e.known[i] <= e.h.byAddress.Keys
  }

  /** Every pointer ever queued, in the order in which they have or will have their turn. */
  function Queue(e: Expansion): seq<GValue> {
    e.turns + e.h.pending
  }

  ghost predicate TurnsMet(e: Expansion) {
    forall p | p in e.turns :: p in e.h.met
  }

  ghost predicate DropsWhenFull(e: Expansion, g: HeapState) {
    e.h.dropped && !g.dropped ==> |e.turns| + |e.h.pending| >= MAX_POINTERS
  }

  /** The end of an expansion: each address was read once, and exactly those whose first
      pointer leads to a readable aggregate at an address without a box; what was met and no
      longer waits is resolved; and every read was charged to the trace's budget. */
  lemma {:induction false} ExpandResolves(e: Expansion, mem: Memory, seen: set<nat>, g: HeapState)
    requires |e.read| <= MAX_EXPANDED_PER_STEP && Going(e, mem, seen, g)
    ensures var r := Expand(e, mem, seen);
            && Rests(r) && |r.read| <= MAX_EXPANDED_PER_STEP && r.left + |r.read| == e.left + |e.read|
            && Inv(r.h, {}) && Keeps(g, r.h)
            && ReadOk(r.read, g) && ReadsExactly(r.read, r.turns, r.known, mem)
            && AllResolved(r.h, mem, r.turns) && TurnsMet(r) && DropsWhenFull(r, g) && ReadsDrawn(r, mem)
            && Queue(e) <= Queue(r)
    decreases MAX_EXPANDED_PER_STEP - |e.read|, |e.h.pending|
  {
    hide Inv, Keeps, Drawable, Resolved, Turned, AllResolved, ReadOk, SeenOk, TurnsMet, ReadsExactly, Readable,
         ReadsDrawn, DropsWhenFull, AfterValue, Queue;
    if !Rests(e) {
      var h, v, next := e.h, e.h.pending[0], Turn(e);
      PendingArePointers(h);
      PopKeepsInv(g, h, next.h);
      TurnKeepsQueue(e);
      TurnStaysMet(e, g);
      TurnStaysDrawn(e, mem);
      if v.target in seen || v.target in h.byAddress {
        SkippedTurn(g, h, next.h, mem, e.turns, seen, e.read);
        NothingMoreRead(e, mem, seen);
        ExpandResolves(next, mem, seen, g);
      } else if !Readable(mem, v) {
        RefusedTurn(h, next.h, mem, e.turns, seen, e.read);
        NothingMoreRead(e, mem, seen);
        ExpandResolves(next, mem, seen + {v.target}, g);
      } else {
        var r := Reads(next, mem, v);
        ValueDrawn(Pointee(mem, v), 0, next.h, {});
        ExpandedTurn(g, h, next.h, r.h, mem, e.turns, seen, e.read, AfterValue(Pointee(mem, v), 0, next.h).1);
        OneMoreRead(e, mem, seen);
        ReadStaysMet(next, r, g);
        ReadStaysDrawn(next, mem, v);
        ReadGrows(next, r);
        ExpandResolves(r, mem, seen + {v.target}, g);
      }
    }
  }

  /** A turn that reads nothing: its pointer is not the first, or something is boxed there, or
      it leads to nothing readable. */
  lemma NothingMoreRead(e: Expansion, mem: Memory, seen: set<nat>)
    requires e.h.pending != [] && ReadsExactly(e.read, e.turns, e.known, mem)
    requires SeenOk(seen, e.read, e.h, mem, e.turns)
    requires var v := e.h.pending[0];
             v.Pointer? && (v.target in seen || v.target in e.h.byAddress || !Readable(mem, v))
    ensures var n := Turn(e); ReadsExactly(n.read, n.turns, n.known, mem)
  {
    hide Resolved;
    var n, v := Turn(e), e.h.pending[0];
    forall q: (nat, string) ensures q in e.read <==> IsRead(q, n.turns, n.known, mem) {
      if Turned(e.turns, q.0) {
        FirstStays(e.turns, n.turns, q.0);
      } else {
        NewFirst(e.turns, v, q.0);
      }
    }
  }

  lemma OneMoreRead(e: Expansion, mem: Memory, seen: set<nat>)
    requires e.h.pending != [] && e.left > 0 && ReadsExactly(e.read, e.turns, e.known, mem)
    requires SeenOk(seen, e.read, e.h, mem, e.turns)
    requires var v := e.h.pending[0];
             v.Pointer? && v.target != 0 && v.target !in seen && v.target !in e.h.byAddress && Readable(mem, v)
    ensures var r := Reads(Turn(e), mem, e.h.pending[0]); ReadsExactly(r.read, r.turns, r.known, mem)
  {
    hide Resolved, AfterValue;
    var v := e.h.pending[0];
    var r := Reads(Turn(e), mem, v);
    assert !Turned(e.turns, v.target);
    forall q: (nat, string) ensures q in r.read <==> IsRead(q, r.turns, r.known, mem) {
      if Turned(e.turns, q.0) {
        FirstStays(e.turns, r.turns, q.0);
      } else {
        NewFirst(e.turns, v, q.0);
      }
    }
  }

  lemma TurnKeepsQueue(e: Expansion)
    requires e.h.pending != []
    ensures Queue(Turn(e)) == Queue(e)
  {
  }

  lemma ReadGrows(e: Expansion, r: Expansion)
    requires Adds(e.h, r.h) && r.turns == e.turns
    ensures Queue(e) <= Queue(r)
  {
    assert r.h.pending == e.h.pending + r.h.pending[|e.h.pending|..];
  }

  lemma TurnStaysMet(e: Expansion, g: HeapState)
    requires Inv(e.h, {}) && e.h.pending != [] && TurnsMet(e) && DropsWhenFull(e, g)
    ensures TurnsMet(Turn(e)) && DropsWhenFull(Turn(e), g)
  {
    hide DrawnOk, UsedOk, RegistryOk;
    assert e.h.pending[0] in e.h.pending;
  }

  lemma ReadStaysMet(e: Expansion, r: Expansion, g: HeapState)
    requires TurnsMet(e) && DropsWhenFull(e, g) && Adds(e.h, r.h) && r.turns == e.turns && Keeps(g, e.h)
    ensures TurnsMet(r) && DropsWhenFull(r, g)
  {
  }

  lemma TurnStaysDrawn(e: Expansion, mem: Memory)
    requires e.h.pending != [] && ReadsDrawn(e, mem)
    ensures ReadsDrawn(Turn(e), mem)
  {
  }

  lemma ReadStaysDrawn(e: Expansion, mem: Memory, p: GValue)
    requires ReadsDrawn(e, mem) && Readable(mem, p) && e.left > 0 && Inv(e.h, {})
    requires var h := AfterValue(Pointee(mem, p), 0, e.h).0; Adds(e.h, h) && SlotSettled(Pointee(mem, p), 0, h)
    ensures ReadsDrawn(Reads(e, mem, p), mem)
  {
    hide AfterValue, SlotSettled, SlotG, RegistryOk, QueueOk, DrawnOk, UsedOk;
    var h := AfterValue(Pointee(mem, p), 0, e.h).0;
    forall q | q in e.read ensures SlotSettled(mem[q], 0, h) {
      hide Adds;
      SettledStays(mem[q], 0, e.h, h);
    }
  }

  /** What an expansion from a drawn state comes to. */
  ghost predicate Resolves(h: HeapState, left: nat, e: Expansion, mem: Memory) {
    Inv(h, {}) && AllResolved(h, mem, []) ==>
      && Rests(e) && |e.read| <= MAX_EXPANDED_PER_STEP && e.left + |e.read| == left
      && Inv(e.h, {}) && Keeps(h, e.h)
      && ReadOk(e.read, h) && ReadsExactly(e.read, e.turns, e.known, mem)
      && AllResolved(e.h, mem, e.turns) && TurnsMet(e) && DropsWhenFull(e, h) && ReadsDrawn(e, mem)
      && h.pending <= Queue(e)
  }

  lemma ExpansionGives(h: HeapState, left: nat, mem: Memory)
    ensures Resolves(h, left, AfterExpansion(h, left, mem), mem)
  {
    hide Inv, Keeps, AllResolved, Expand, ReadOk, Rests, TurnsMet, DropsWhenFull, ReadsDrawn;
    if Inv(h, {}) && AllResolved(h, mem, []) {
      ExpansionResolves(h, left, mem);
    }
  }

  /** An expansion from the pointers that the drawing of a step, or of one value, has queued. */
  lemma ExpansionResolves(h: HeapState, left: nat, mem: Memory)
    requires Inv(h, {}) && AllResolved(h, mem, [])
    ensures var e := AfterExpansion(h, left, mem);
            && Rests(e) && |e.read| <= MAX_EXPANDED_PER_STEP && e.left + |e.read| == left
            && Inv(e.h, {}) && Keeps(h, e.h)
            && ReadOk(e.read, h) && ReadsExactly(e.read, e.turns, e.known, mem)
            && AllResolved(e.h, mem, e.turns) && TurnsMet(e) && DropsWhenFull(e, h) && ReadsDrawn(e, mem)
            && h.pending <= Queue(e)
  {
    hide Inv, Keeps, AllResolved, Expand;
    KeepsReflexive(h, {});
    NothingRead(h, mem);
    ExpandResolves(StartOf(h, left), mem, {}, h);
    assert [] + h.pending == h.pending;
  }

  /** Addresses marked as seen had their turn and are resolved; the addresses read are among them. */
  ghost predicate SeenOk(seen: set<nat>, read: seq<(nat, string)>, h: HeapState, mem: Memory, turns: seq<GValue>) {
    && (forall t | t in seen :: Turned(turns, t) && Resolved(h, mem, turns, t))
    && (forall i | 0 <= i < |read| :: read[i].0 in seen)
    && (forall t | Turned(turns, t) :: t == 0 || t in seen || t in h.byAddress)
  }

  lemma KeepsReflexive(g: HeapState, open: set<Id>)
    requires Inv(g, open)
    ensures Keeps(g, g) && |g.used| <= MAX_HEAP_OBJECTS
  {
    hide DrawnOk, OriginOk;
  }

  lemma KeepsTransitive(f: HeapState, g: HeapState, h: HeapState)
    requires Keeps(f, g) && Keeps(g, h)
    ensures Keeps(f, h)
  {
  }

  lemma NothingRead(g: HeapState, mem: Memory)
    requires AllResolved(g, mem, [])
    ensures ReadOk([], g) && ReadsExactly([], [], [], mem) && SeenOk({}, [], g, mem, [])
  {
  }

  lemma PendingArePointers(h: HeapState)
    requires Inv(h, {}) && h.pending != []
    ensures h.pending[0].Pointer? && h.pending[0].target != 0
  {
    hide DrawnOk, UsedOk, RegistryOk;
    assert h.pending[0] in h.met;
  }

  lemma PopKeepsInv(g: HeapState, h: HeapState, h': HeapState)
    requires Inv(h, {}) && h.pending != [] && h' == h.(pending := h.pending[1..]) && Keeps(g, h)
    ensures Inv(h', {}) && Keeps(g, h')
  {
    hide DrawnOk, OriginOk, RegistryOk;
    SameUsed(h, h');
    forall r | r in h'.origin ensures DrawnOk(h', r) {
      PopKeepsDrawn(h, h', r);
    }
    hide UsedOk;
    assert forall p | p in h'.pending :: p in h.pending;
  }

  lemma PopKeepsDrawn(h: HeapState, h': HeapState, r: Id)
    requires r in h.origin && DrawnOk(h, r) && h' == h.(pending := h'.pending)
    ensures DrawnOk(h', r)
  {
    hide BoxSettled, BoxG;
    SettledIgnoresBoxes(h.origin[r].0, h.origin[r].1, h, h');
  }

  lemma ResolvedStays(g: HeapState, h: HeapState, mem: Memory, turns: seq<GValue>, v: GValue, t: nat)
    requires Resolved(g, mem, turns, t) && Keeps(g, h) && |h.used| <= MAX_HEAP_OBJECTS
    ensures Resolved(h, mem, turns + [v], t)
  {
    hide Drawable, FirstAt;
    if Turned(turns, t) {
      FirstStays(turns, turns + [v], t);
    }
  }

  /** What every turn shares: what was resolved stays so, and the turn's own address must be. */
  lemma TurnTaken(h: HeapState, h': HeapState, mem: Memory, turns: seq<GValue>, v: GValue,
                  seen: set<nat>, seen': set<nat>, read: seq<(nat, string)>)
    requires AllResolved(h, mem, turns) && SeenOk(seen, read, h, mem, turns)
    requires h.pending != [] && v == h.pending[0] && v.Pointer? && v.target != 0
    requires Keeps(h.(pending := []), h') && |h'.used| <= MAX_HEAP_OBJECTS && h.pending[1..] <= h'.pending
    requires forall p | p in h'.met && p !in h.met :: p in h'.pending
    requires Resolved(h', mem, turns + [v], v.target)
    requires seen <= seen' <= seen + {v.target} && (v.target in seen' || v.target in h'.byAddress)
    ensures AllResolved(h', mem, turns + [v]) && SeenOk(seen', read, h', mem, turns + [v])
  {
    hide Resolved, FirstAt, Turned;
    forall p | p in h'.met && p !in h'.pending
      ensures p.Pointer? && Turned(turns + [v], p.target) && Resolved(h', mem, turns + [v], p.target)
    {
      assert p in h.met;
      TurnedGrows(turns, v, p.target);
      if p in h.pending {
        assert h.pending == [v] + h.pending[1..];
        assert p !in h.pending[1..];
      } else {
        ResolvedStays(h.(pending := []), h', mem, turns, v, p.target) by {
          ResolvedIgnoresQueue(h, mem, turns, p.target);
        }
      }
    }
    forall t | t in seen' ensures Turned(turns + [v], t) && Resolved(h', mem, turns + [v], t) {
      TurnedGrows(turns, v, t);
      if t in seen {
        ResolvedIgnoresQueue(h, mem, turns, t);
        ResolvedStays(h.(pending := []), h', mem, turns, v, t);
      }
    }
    forall t | Turned(turns + [v], t) ensures t == 0 || t in seen' || t in h'.byAddress {
      TurnedGrows(turns, v, t);
    }
  }

  lemma TurnedGrows(turns: seq<GValue>, v: GValue, t: nat)
    ensures Turned(turns + [v], t) <==> Turned(turns, t) || LeadsTo(v, t)
  {
    hide FirstAt;
    if Turned(turns, t) {
      FirstStays(turns, turns + [v], t);
    } else {
      NewFirst(turns, v, t);
    }
  }

  lemma ResolvedIgnoresQueue(h: HeapState, mem: Memory, turns: seq<GValue>, t: nat)
    ensures Resolved(h, mem, turns, t) == Resolved(h.(pending := []), mem, turns, t)
  {
  }

  lemma SkippedTurn(g: HeapState, h: HeapState, h': HeapState, mem: Memory, turns: seq<GValue>, seen: set<nat>,
                    read: seq<(nat, string)>)
    requires Inv(h, {}) && AllResolved(h, mem, turns) && SeenOk(seen, read, h, mem, turns)
    requires h.pending != [] && h' == h.(pending := h.pending[1..])
    requires h.pending[0].Pointer? && h.pending[0].target != 0
    requires h.pending[0].target in seen || h.pending[0].target in h.byAddress
    ensures var turns' := turns + [h.pending[0]];
            AllResolved(h', mem, turns') && SeenOk(seen, read, h', mem, turns')
  {
    hide AllResolved, Inv;
    var v := h.pending[0];
    StillInv(h);
    assert Resolved(h', mem, turns + [v], v.target) by {
      if v.target in seen {
        ResolvedStays(h.(pending := []), h', mem, turns, v, v.target) by {
          ResolvedIgnoresQueue(h, mem, turns, v.target);
        }
      }
    }
    TurnTaken(h, h', mem, turns, v, seen, seen, read);
  }

  lemma StillInv(h: HeapState)
    requires Inv(h, {})
    ensures |h.used| <= MAX_HEAP_OBJECTS
    ensures forall q, r :: Keeps(h.(pending := q), h.(pending := r))
  {
    hide DrawnOk, OriginOk;
  }

  lemma RefusedTurn(h: HeapState, h': HeapState, mem: Memory, turns: seq<GValue>,
                    seen: set<nat>, read: seq<(nat, string)>)
    requires Inv(h, {}) && h.pending != [] && h' == h.(pending := h.pending[1..])
    requires AllResolved(h, mem, turns) && SeenOk(seen, read, h, mem, turns)
    requires var v := h.pending[0];
             && v.Pointer? && v.target != 0 && v.target !in h.byAddress && v.target !in seen && !Readable(mem, v)
    ensures var turns' := turns + [h.pending[0]];
            AllResolved(h', mem, turns') && SeenOk(seen + {h.pending[0].target}, read, h', mem, turns')
  {
    hide AllResolved, Inv, Turned, FirstAt;
    var v := h.pending[0];
    StillInv(h);
    assert !Turned(turns, v.target);
    NewFirst(turns, v, v.target);
    TurnTaken(h, h', mem, turns, v, seen, seen + {v.target}, read);
  }

  lemma ExpandedTurn(g: HeapState, h: HeapState, h1: HeapState, h2: HeapState, mem: Memory,
                     turns: seq<GValue>, seen: set<nat>, read: seq<(nat, string)>, slot: GSlot)
    requires Inv(h, {}) && h.pending != [] && h1 == h.(pending := h.pending[1..]) && Keeps(g, h1)
    requires Inv(h2, {}) && Adds(h1, h2)
    requires AllResolved(h, mem, turns) && SeenOk(seen, read, h, mem, turns) && ReadOk(read, g)
    requires var v := h.pending[0];
             && v.Pointer? && v.target != 0 && v.target !in h.byAddress && v.target !in seen && Readable(mem, v)
             && SlotSettled(Pointee(mem, v), 0, h2) && slot == SlotG(Pointee(mem, v), 0, h2.used, h2.ids)
             && (slot.RefSlot? ==> Marked(Pointee(mem, v), h2.byAddress))
    ensures var v := h.pending[0]; var turns', read' := turns + [v], read + [(v.target, v.pointee.value)];
            && AllResolved(h2, mem, turns') && SeenOk(seen + {v.target}, read', h2, mem, turns') && ReadOk(read', g)
    ensures |h2.used| <= MAX_HEAP_OBJECTS && Keeps(g, h2) && h1.pending <= h2.pending
  {
    hide AllResolved, Inv, FirstAt, Turned, Keeps, SlotSettled, Marked;
    var v := h.pending[0];
    StillInv(h);
    StillInv(h2);
    KeepsTransitive(g, h1, h2);
    KeepsTransitive(h.(pending := []), h1, h2);
    assert !Turned(turns, v.target);
    NewFirst(turns, v, v.target);
    ReadResolves(h2, mem, v, slot);
    assert Resolved(h2, mem, turns + [v], v.target);
    TurnTaken(h, h2, mem, turns, v, seen, seen + {v.target}, read);
    KeptAddress(g, h1, v.target);
  }

  lemma KeptAddress(g: HeapState, h: HeapState, t: nat)
    requires Keeps(g, h) && t !in h.byAddress
    ensures t !in g.byAddress
  {
  }

  lemma ReadResolves(h: HeapState, mem: Memory, p: GValue, slot: GSlot)
    requires Inv(h, {}) && Readable(mem, p)
    requires SlotSettled(Pointee(mem, p), 0, h) && slot == SlotG(Pointee(mem, p), 0, h.used, h.ids)
    requires slot.RefSlot? ==> Marked(Pointee(mem, p), h.byAddress)
    ensures p.target in h.byAddress || !Drawable(mem, p) || |h.used| == MAX_HEAP_OBJECTS
  {
    hide DrawnOk, OriginOk, QueueOk;
  }

  // ---- which pointer comes first ---------------------------------------------------------

  /** The first pointer to an address that waits before the expansion decides what is read
      there: when it leads to nothing readable, nothing ever is, whatever comes later; when it
      leads to a readable type, that type is read or nothing is. */
  lemma FirstPointerDecides(h: HeapState, left: nat, mem: Memory, t: nat)
    requires Inv(h, {}) && AllResolved(h, mem, []) && Turned(h.pending, t)
    ensures var e, p := AfterExpansion(h, left, mem), First(h.pending, t);
            && (forall ty | (t, ty) in e.read :: Readable(mem, p) && p.pointee == Some(ty))
            && (e.h.pending == [] ==> Turned(e.turns, t) && First(e.turns, t) == p)
  {
    hide Inv, Keeps, AllResolved, Expand, ReadOk, Rests, TurnsMet, DropsWhenFull, FirstAt;
    var e := AfterExpansion(h, left, mem);
    ExpansionResolves(h, left, mem);
    FirstStays(h.pending, Queue(e), t);
    if Turned(e.turns, t) {
      FirstStays(e.turns, Queue(e), t);
    }
    if e.h.pending == [] {
      assert Queue(e) == e.turns;
    }
  }

  /** With no budget reached, a first pointer that leads to something drawable has it drawn. */
  lemma DrawableFirstIsBoxed(h: HeapState, left: nat, mem: Memory, t: nat)
    requires Inv(h, {}) && AllResolved(h, mem, []) && Turned(h.pending, t) && Drawable(mem, First(h.pending, t))
    requires Unhindered(AfterExpansion(h, left, mem).h)
    ensures t in AfterExpansion(h, left, mem).h.byAddress
  {
    hide Inv, Keeps, Expand, ReadOk, Rests, TurnsMet, DropsWhenFull, FirstAt, Drawable;
    var e := AfterExpansion(h, left, mem);
    ExpansionResolves(h, left, mem);
    FirstPointerDecides(h, left, mem, t);
    PendingIsMet(h, First(h.pending, t));
    KeptMet(h, e.h, First(h.pending, t));
  }

  lemma PendingIsMet(h: HeapState, p: GValue)
    requires Inv(h, {}) && p in h.pending
    ensures p in h.met && p.Pointer? && p.target != 0
  {
    hide DrawnOk, UsedOk, RegistryOk;
  }

  lemma KeptMet(g: HeapState, h: HeapState, p: GValue)
    requires Keeps(g, h) && p in g.met
    ensures p in h.met
  {
  }

  // ---- linking -----------------------------------------------------------------------

  /** `troca`: an address becomes a reference when a box lives there; `nil` never does. */
  function LinkSlot(x: GSlot, byAddress: map<nat, Id>): GSlot {
    if x.PtrSlot? && x.target != 0 && x.target in byAddress then RefSlot(byAddress[x.target]) else x
  }

  function LinkSlots(xs: seq<GSlot>, byAddress: map<nat, Id>): (r: seq<GSlot>)
    ensures |r| == |xs| && forall i | 0 <= i < |xs| :: r[i] == LinkSlot(xs[i], byAddress)
  {
    if xs == [] then [] else LinkSlots(xs[..|xs| - 1], byAddress) + [LinkSlot(xs[|xs| - 1], byAddress)]
  }

  function LinkMap(m: map<string, GSlot>, byAddress: map<nat, Id>): map<string, GSlot> {
    map k | k in m :: LinkSlot(m[k], byAddress)
  }

  function LinkBox(b: GBox, byAddress: map<nat, Id>): GBox {
    match b
    case ListBox(kind, items, truncated) => ListBox(kind, LinkSlots(items, byAddress), truncated)
    case ObjectBox(cls, fields, truncated) => ObjectBox(cls, LinkMap(fields, byAddress), truncated)
  }

  function LinkBoxes(boxes: map<Id, GBox>, byAddress: map<nat, Id>): map<Id, GBox> {
    map r | r in boxes :: LinkBox(boxes[r], byAddress)
  }

  method LinkFields(m: map<string, GSlot>, byAddress: map<nat, Id>) returns (out: map<string, GSlot>)
    ensures out == LinkMap(m, byAddress)
  {
    out := m;
    var rest := m.Keys;
    while rest != {}
      invariant rest <= m.Keys && out.Keys == m.Keys
      invariant forall k | k in m :: out[k] == if k in rest then m[k] else LinkSlot(m[k], byAddress)
      decreases rest
    {
      var k :| k in rest;
      out := out[k := LinkSlot(m[k], byAddress)];
      rest := rest - {k};
    }
  }

  /** `_liga_ponteiros`: every variable of the stack and every slot of every box, in place. */
  method LinkPointers(heap: Heap, vars: seq<map<string, GSlot>>) returns (linked: seq<map<string, GSlot>>)
    modifies heap`boxes
    ensures heap.boxes == LinkBoxes(old(heap.boxes), heap.byAddress)
    ensures |linked| == |vars| && forall i | 0 <= i < |vars| :: linked[i] == LinkMap(vars[i], heap.byAddress)
  {
    linked := [];
    for i := 0 to |vars|
      invariant |linked| == i && forall j | 0 <= j < i :: linked[j] == LinkMap(vars[j], heap.byAddress)
      invariant heap.boxes == old(heap.boxes)
    {
      var out := LinkFields(vars[i], heap.byAddress);
      linked := linked + [out];
    }
    var was := heap.boxes;
    var rest := was.Keys;
    while rest != {}
      invariant rest <= was.Keys && heap.boxes.Keys == was.Keys
      invariant forall r | r in was :: heap.boxes[r] == if r in rest then was[r] else LinkBox(was[r], heap.byAddress)
      decreases rest
    {
      var r :| r in rest;
      match was[r] {
        case ListBox(kind, items, truncated) =>
          var slots := [];
          for i := 0 to |items|
            invariant slots == LinkSlots(items[..i], heap.byAddress)
          {
            assert items[..i + 1][..i] == items[..i];
            slots := slots + [LinkSlot(items[i], heap.byAddress)];
          }
          assert items[..|items|] == items;
          heap.boxes := heap.boxes[r := ListBox(kind, slots, truncated)];
        case ObjectBox(cls, fields, truncated) =>
          var out := LinkFields(fields, heap.byAddress);
          heap.boxes := heap.boxes[r := ObjectBox(cls, out, truncated)];
      }
      rest := rest - {r};
    }
  }

  /** The address `t` appears as a bare pointer in a box. */
  predicate ShowsPointer(b: GBox, t: nat) {
    match b
    case ListBox(_, items, _) => PtrSlot(t) in items
    case ObjectBox(_, fields, _) => exists k :: k in fields && fields[k] == PtrSlot(t)
  }

  /** Linking leaves exactly the pointers that lead to no box. */
  lemma LinkingIsExact(b: GBox, byAddress: map<nat, Id>, t: nat)
    ensures ShowsPointer(LinkBox(b, byAddress), t) <==> ShowsPointer(b, t) && (t == 0 || t !in byAddress)
  {
    match b
    case ListBox(_, items, _) =>
      forall i | 0 <= i < |items|
        ensures items[i] in items && LinkSlot(items[i], byAddress) in LinkSlots(items, byAddress)
      {
        assert LinkSlots(items, byAddress)[i] == LinkSlot(items[i], byAddress);
      }
      hide LinkSlots;
    case ObjectBox(_, fields, _) =>
      var l := LinkMap(fields, byAddress);
      assert forall k | k in fields :: k in l && l[k] == LinkSlot(fields[k], byAddress);
  }

  lemma LinkingChanges(b: GBox, byAddress: map<nat, Id>, t: nat)
    requires ShowsPointer(b, t) && t != 0 && t in byAddress
    ensures LinkBox(b, byAddress) != b
  {
    LinkingIsExact(b, byAddress, t);
    hide ShowsPointer, LinkBox;
  }

  /** A box changes only where it shows a recorded address. */
  lemma ChangedShows(b: GBox, byAddress: map<nat, Id>) returns (t: nat)
    requires LinkBox(b, byAddress) != b
    ensures t != 0 && t in byAddress && ShowsPointer(b, t)
  {
    match b
    case ListBox(kind, items, truncated) =>
      assert LinkSlots(items, byAddress) != items;
      var i :| 0 <= i < |items| && LinkSlots(items, byAddress)[i] != items[i];
      assert items[i] in items;
      t := items[i].target;
    case ObjectBox(cls, fields, truncated) =>
      assert LinkMap(fields, byAddress) != fields;
      var k :| k in fields && LinkMap(fields, byAddress)[k] != fields[k];
      t := fields[k].target;
  }

  /** Linking again changes nothing. */
  lemma LinkingIsIdempotent(b: GBox, byAddress: map<nat, Id>)
    ensures LinkBox(LinkBox(b, byAddress), byAddress) == LinkBox(b, byAddress)
  {
    match b
    case ListBox(_, items, _) => LinkSlotsTwice(items, byAddress);
    case ObjectBox(_, fields, _) =>
      var l := LinkMap(fields, byAddress);
      assert LinkMap(l, byAddress) == l;
  }

  lemma LinkSlotsTwice(xs: seq<GSlot>, byAddress: map<nat, Id>)
    ensures LinkSlots(LinkSlots(xs, byAddress), byAddress) == LinkSlots(xs, byAddress)
  {
    var once := LinkSlots(xs, byAddress);
    var twice := LinkSlots(once, byAddress);
    assert forall i | 0 <= i < |xs| :: twice[i] == once[i];
  }

  // ---- a linked structure is drawn whole ----------------------------------------------

  /** A pointer to `t` was met while drawing, unless the queue dropped one. */
  ghost predicate MetPointer(h: HeapState, t: nat) {
    t == 0 || h.dropped || exists p :: p in h.met && p.Pointer? && p.target == t
  }

  lemma SlotPointerMet(v: GValue, depth: nat, h: HeapState, t: nat)
    requires SlotSettled(v, depth, h) && SlotG(v, depth, h.used, h.ids) == PtrSlot(t)
    ensures MetPointer(h, t)
  {
  }

  lemma {:induction false} CellPointerMet(cells: seq<Option<GValue>>, n: nat, depth: nat, h: HeapState, t: nat)
    requires CellsSettled(cells, n, depth, h) && PtrSlot(t) in CellsG(cells, n, depth, h.used, h.ids)
    ensures MetPointer(h, t)
  {
    hide MetPointer, SlotSettled, SlotG;
    if CellG(CellAt(cells, n - 1), depth, h.used, h.ids) == PtrSlot(t) {
      SlotPointerMet(cells[n - 1].value, depth, h, t);
    } else {
      CellPointerMet(cells, n - 1, depth, h, t);
    }
  }

  lemma {:induction false} FieldPointerMet(fs: seq<(Option<string>, Option<GValue>)>, n: nat, depth: nat,
                                           h: HeapState, k: string, t: nat)
    requires n <= |fs| && FieldsSettled(fs, n, depth, h)
    requires var m := FieldsG(fs, n, depth, h.used, h.ids); k in m && m[k] == PtrSlot(t)
    ensures MetPointer(h, t)
  {
    hide MetPointer, SlotSettled, SlotG;
    if fs[n - 1].0 == Some(k) {
      SlotPointerMet(fs[n - 1].1.value, depth, h, t);
    } else {
      FieldPointerMet(fs, n - 1, depth, h, k, t);
    }
  }

  lemma BoxPointerMet(h: HeapState, r: Id, t: nat)
    requires r in h.origin && DrawnOk(h, r) && ShowsPointer(h.boxes[r], t)
    ensures MetPointer(h, t)
  {
    hide MetPointer, CellsSettled, FieldsSettled, CellsG, FieldsG;
    var (v, depth) := h.origin[r];
    match v
    case Struct(_, _, fields) =>
      var k :| k in h.boxes[r].fields && h.boxes[r].fields[k] == PtrSlot(t);
      FieldPointerMet(fields, Drawn(v), depth + 1, h, k, t);
    case Array(_, _, cells) => CellPointerMet(cells, Drawn(v), depth + 1, h, t);
    case Slice(_, _, _, _, _, cells) => CellPointerMet(cells, Drawn(v), depth + 1, h, t);
    case Dictionary(_, _, _, _) =>
  }

  /** An address that still shows after linking: nil, or the first pointer to it, which was met,
      does not lead to something drawable. */
  ghost predicate Bare(h: HeapState, mem: Memory, turns: seq<GValue>, t: nat) {
    t == 0 || (Turned(turns, t) && First(turns, t) in h.met && !Drawable(mem, First(turns, t)))
  }

  /** No budget was reached: the queue ran empty, dropped nothing, and the step is not full. */
  ghost predicate Unhindered(h: HeapState) {
    h.pending == [] && !h.dropped && |h.used| < MAX_HEAP_OBJECTS
  }

  lemma MetIsBareOrBoxed(h: HeapState, mem: Memory, turns: seq<GValue>, t: nat)
    requires Inv(h, {}) && AllResolved(h, mem, turns) && Unhindered(h) && MetPointer(h, t)
    requires forall p | p in turns :: p in h.met
    ensures t in h.byAddress || Bare(h, mem, turns, t)
  {
    hide Drawable, UsedOk, RegistryOk, DrawnOk, FirstAt;
  }

  /** After expanding and linking, with no budget reached, a pointer that still shows as an
      address in a box of this step is bare for one of those reasons. */
  lemma WholeStructureDrawn(h: HeapState, mem: Memory, turns: seq<GValue>, r: Id, t: nat)
    requires Inv(h, {}) && AllResolved(h, mem, turns) && Unhindered(h) && forall p | p in turns :: p in h.met
    requires r in h.origin && ShowsPointer(LinkBox(h.boxes[r], h.byAddress), t)
    ensures Bare(h, mem, turns, t)
  {
    hide Bare, UsedOk, RegistryOk, LinkBox, ShowsPointer, BoxG, BoxSettled, MetPointer, AllResolved;
    assert DrawnOk(h, r);
    LinkingIsExact(h.boxes[r], h.byAddress, t);
    BoxPointerMet(h, r, t);
    MetIsBareOrBoxed(h, mem, turns, t);
    assert t == 0 ==> Bare(h, mem, turns, t) by {
      NilIsBare(h, mem, turns);
    }
  }

  /** The same for the variables of a frame. */
  lemma FrameVariablesDrawn(h: HeapState, mem: Memory, turns: seq<GValue>, frame: seq<(Option<string>, Option<GValue>)>,
                            k: string, t: nat)
    requires Inv(h, {}) && AllResolved(h, mem, turns) && Unhindered(h) && forall p | p in turns :: p in h.met
    requires FieldsSettled(frame, |frame|, 0, h)
    requires var m := LinkMap(FieldsG(frame, |frame|, 0, h.used, h.ids), h.byAddress); k in m && m[k] == PtrSlot(t)
    ensures Bare(h, mem, turns, t)
  {
    hide Bare, Inv, FieldsSettled, FieldsG, MetPointer, AllResolved;
    FieldPointerMet(frame, |frame|, 0, h, k, t);
    MetIsBareOrBoxed(h, mem, turns, t);
    NilIsBare(h, mem, turns);
  }

  lemma NilIsBare(h: HeapState, mem: Memory, turns: seq<GValue>)
    ensures Bare(h, mem, turns, 0)
  {
  }

  /** When every pointer to `t` that was met leads to something drawable, `t` has its box. */
  lemma TypedPointersAreDrawn(h: HeapState, mem: Memory, turns: seq<GValue>, t: nat)
    requires Inv(h, {}) && AllResolved(h, mem, turns) && Unhindered(h) && forall p | p in turns :: p in h.met
    requires t != 0 && MetPointer(h, t) && forall p | p in h.met && LeadsTo(p, t) :: Drawable(mem, p)
    ensures t in h.byAddress && h.byAddress[t] in h.boxes
  {
    MetIsBareOrBoxed(h, mem, turns, t);
    hide UsedOk, RegistryOk, DrawnOk, FirstAt, AllResolved, Drawable;
  }

  /** Every reference that linking introduces leads to a box. */
  lemma LinksLeadToBoxes(h: HeapState, t: nat)
    requires Inv(h, {}) && LinkSlot(PtrSlot(t), h.byAddress).RefSlot?
    ensures LinkSlot(PtrSlot(t), h.byAddress).id in LinkBoxes(h.boxes, h.byAddress)
  {
    hide DrawnOk, UsedOk, RegistryOk;
  }
}
