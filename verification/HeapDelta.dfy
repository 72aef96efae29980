/**
  How the object heap travels in a trace.  Both recorders (the Python harness and
  the gdb driver) send the first heap whole and every later one as the difference
  against the last step that entered the trace; the consumer rebuilds the heaps by
  accumulating.  A step carries `heap`, or `heap_delta`, or neither.

  Box ids are the dense counter values; the source writes them as decimal strings.
 */
module HeapDelta {
  import opened Options

  type Id = nat

  /** `set` and `del` of the source; each key is present only when non-empty. */
  datatype Delta<B> = Delta(put: Option<map<Id, B>>, del: Option<set<Id>>)

  /** The two heap keys of one step of the document. */
  datatype Wire<B> = Wire(heap: Option<map<Id, B>>, delta: Option<Delta<B>>)

  // ---- encoder -------------------------------------------------------------

  function Changed<B(==)>(prev: map<Id, B>, cur: map<Id, B>): map<Id, B> {
    map r | r in cur && (r !in prev || prev[r] != cur[r]) :: cur[r]
  }

  function Gone<B>(prev: map<Id, B>, cur: map<Id, B>): set<Id> {
    prev.Keys - cur.Keys
  }

  function Encode<B(==)>(base: Option<map<Id, B>>, cur: map<Id, B>): Wire<B> {
    match base
    case None => Wire(Some(cur), None)
    case Some(prev) =>
      var changed := Changed(prev, cur);
      var gone := Gone(prev, cur);
      if changed == map[] && gone == {} then
        Wire(None, None)
      else
        Wire(None, Some(Delta(if changed == map[] then None else Some(changed),
                              if gone == {} then None else Some(gone))))
  }

  // ---- decoder -------------------------------------------------------------

  function Patch<B>(base: map<Id, B>, d: Delta<B>): map<Id, B> {
    (base + d.put.GetOr(map[])) - d.del.GetOr({})
  }

  /** The running heap of the consumer after one more step. */
  function Apply<B>(isDelta: bool, running: Option<map<Id, B>>, w: Wire<B>): Option<map<Id, B>> {
    if w.heap.Some? then w.heap
    else if w.delta.Some? then Some(Patch(running.GetOr(map[]), w.delta.value))
    else if isDelta then running
    else None
  }

  /** The running heap of the consumer after all of `wires`. */
  function After<B>(isDelta: bool, wires: seq<Wire<B>>): Option<map<Id, B>> {
    if wires == [] then None
    else Apply(isDelta, After(isDelta, wires[..|wires| - 1]), wires[|wires| - 1])
  }

  /** What the consumer shows at each step. */
  function Decoded<B>(isDelta: bool, wires: seq<Wire<B>>): seq<map<Id, B>> {
    seq(|wires|, i requires 0 <= i < |wires| => After(isDelta, wires[..i + 1]).GetOr(map[]))
  }

  /** The consumer's loop, which writes the rebuilt heap into every step in place. */
  method RebuildHeaps<B>(steps: array<Wire<B>>, isDelta: bool)
    modifies steps
    ensures forall i :: 0 <= i < steps.Length ==>
              steps[i] == old(steps[i]).(heap := Some(Decoded(isDelta, old(steps[..]))[i]))
  {
    ghost var was := steps[..];
    var running: Option<map<Id, B>> := None;
    for i := 0 to steps.Length
      invariant running == After(isDelta, was[..i])
      invariant forall k :: i <= k < steps.Length ==> steps[k] == was[k]
      invariant forall k :: 0 <= k < i ==> steps[k] == was[k].(heap := Some(Decoded(isDelta, was)[k]))
    {
      assert was[..i + 1][..i] == was[..i];
      var s := steps[i];
      if s.heap.Some? {
        running := s.heap;
      } else if s.delta.Some? {
        var base := running.GetOr(map[]);
        base := base + s.delta.value.put.GetOr(map[]);
        base := base - s.delta.value.del.GetOr({});
        running := Some(base);
      } else if !isDelta {
        running := None;
      }
      steps[i] := s.(heap := Some(running.GetOr(map[])));
    }
  }

  // ---- the encoding is exact -----------------------------------------------

  /** The wires decode, step by step, to exactly the given heaps. */
  ghost predicate Exact<B>(wires: seq<Wire<B>>, heaps: seq<map<Id, B>>) {
    && |wires| == |heaps|
    && forall i :: 0 <= i < |heaps| ==> After(true, wires[..i + 1]) == Some(heaps[i])
  }

  function LastHeap<B>(heaps: seq<map<Id, B>>): Option<map<Id, B>> {
    if heaps == [] then None else Some(heaps[|heaps| - 1])
  }

  /** One delta undoes exactly the difference it was computed from. */
  lemma EncodeThenApply<B>(base: Option<map<Id, B>>, cur: map<Id, B>)
    ensures Apply(true, base, Encode(base, cur)) == Some(cur)
  {
    if base.Some? {
      var prev := base.value;
      var changed, gone := Changed(prev, cur), Gone(prev, cur);
      assert (prev + changed) - gone == cur;
      if changed == map[] && gone == {} {
        assert prev + changed == prev && prev - gone == prev;
      }
      assert changed == map[] ==> prev + changed == prev;
      assert gone == {} ==> (prev + changed) - gone == prev + changed;
    }
  }

  /** `set` and `del` never overlap, both are smallest, and an unchanged heap sends neither. */
  lemma EncodeIsMinimal<B>(prev: map<Id, B>, cur: map<Id, B>)
    ensures var w := Encode(Some(prev), cur);
            && w.heap == None
            && (w.delta == None <==> prev == cur)
            && (w.delta.Some? ==>
                  var put, del := w.delta.value.put.GetOr(map[]), w.delta.value.del.GetOr({});
                  && put.Keys !! del
                  && w.delta.value != Delta(None, None)
                  && w.delta.value.put != Some(map[]) && w.delta.value.del != Some({})
                  && forall d: Delta<B> :: Patch(prev, d) == cur ==>
                       put.Keys <= d.put.GetOr(map[]).Keys && del <= d.del.GetOr({}))
  {
    var changed, gone := Changed(prev, cur), Gone(prev, cur);
    if changed == map[] && gone == {} {
      forall r | r in cur ensures r in prev && prev[r] == cur[r] {
        assert r !in changed;
      }
      forall r | r in prev ensures r in cur {
        assert r !in gone;
      }
      assert prev == cur;
    }
    forall d: Delta<B> | Patch(prev, d) == cur
      ensures changed.Keys <= d.put.GetOr(map[]).Keys && gone <= d.del.GetOr({})
    {
      var put, del := d.put.GetOr(map[]), d.del.GetOr({});
      forall r | r in changed ensures r in put {
        assert r in cur && r in Patch(prev, d);
      }
      forall r | r in gone ensures r in del {
        assert r !in Patch(prev, d);
      }
    }
  }

  /** Recording one more heap, as a delta against the last recorded one, stays exact. */
  lemma ExactAppend<B>(wires: seq<Wire<B>>, heaps: seq<map<Id, B>>, cur: map<Id, B>)
    requires Exact(wires, heaps)
    ensures Exact(wires + [Encode(LastHeap(heaps), cur)], heaps + [cur])
  {
    var n := |heaps|;
    var more := wires + [Encode(LastHeap(heaps), cur)];
    assert more[..n] == wires && more[..n + 1] == more;
    assert n > 0 ==> wires[..n] == wires;
    EncodeThenApply(LastHeap(heaps), cur);
    forall i | 0 <= i < n
      ensures After(true, more[..i + 1]) == Some(heaps[i])
    {
      assert more[..i + 1] == wires[..i + 1];
    }
  }

  /** An exact trace decodes to its heaps, and so does every prefix of it: a trace cut
      by a cap, or halved, still shows the true heap at every step it keeps. */
  lemma ExactPrefixDecodes<B>(wires: seq<Wire<B>>, heaps: seq<map<Id, B>>, k: nat)
    requires Exact(wires, heaps) && k <= |wires|
    ensures Decoded(true, wires[..k]) == heaps[..k]
    ensures Exact(wires[..k], heaps[..k])
  {
    forall i | 0 <= i < k
      ensures After(true, wires[..k][..i + 1]) == Some(heaps[i])
    {
      assert wires[..k][..i + 1] == wires[..i + 1];
    }
  }

  /** Decoding is idempotent: a document already rebuilt rebuilds to itself. */
  lemma RebuildIdempotent<B>(isDelta: bool, flag: bool, wires: seq<Wire<B>>, rebuilt: seq<Wire<B>>)
    requires |rebuilt| == |wires|
    requires forall i :: 0 <= i < |wires| ==> rebuilt[i] == wires[i].(heap := Some(Decoded(isDelta, wires)[i]))
    ensures Decoded(flag, rebuilt) == Decoded(isDelta, wires)
  {
    forall i | 0 <= i < |wires|
      ensures After(flag, rebuilt[..i + 1]).GetOr(map[]) == Decoded(isDelta, wires)[i]
    {
      assert rebuilt[..i + 1][i] == rebuilt[i];
    }
  }
}
