/**
  Adding boxes to a step that is already encoded (`_acrescenta_caixas`), and when the trace
  still decodes to its heaps.

  Python shares box objects: the boxes of the base and the boxes sent in the last step
  are the same objects, so linking a box of the base in place also changes it in that
  step, when the step sent it.  `Relinked` is that sharing.
 */
module Patching {
  import opened Options
  import opened HeapDelta
  import opened GdbHeap

  type Boxes = map<Id, GBox>

  // ---- patching an encoded step --------------------------------------------------------

  function DelOf(w: Wire<GBox>): set<Id> {
    if w.heap.None? && w.delta.Some? then w.delta.value.del.GetOr({}) else {}
  }

  /** The boxes a step sent. */
  function SentBy(w: Wire<GBox>): set<Id> {
    if w.heap.Some? then w.heap.value.Keys
    else if w.delta.Some? then w.delta.value.put.GetOr(map[]).Keys
    else {}
  }

  function Refreshed(sent: Boxes, now: Boxes): Boxes {
    map r | r in sent :: if r in now then now[r] else sent[r]
  }

  /** The last step after its base's boxes changed in place: the ones it sent changed too. */
  function Relinked(w: Wire<GBox>, now: Boxes): Wire<GBox> {
    if w.heap.Some? then w.(heap := Some(Refreshed(w.heap.value, now)))
    else if w.delta.Some? && w.delta.value.put.Some? then
      w.(delta := Some(w.delta.value.(put := Some(Refreshed(w.delta.value.put.value, now)))))
    else w
  }

  /** `_acrescenta_caixas`: new boxes enter a step through its own encoding. */
  function WithBoxes(w: Wire<GBox>, added: Boxes): Wire<GBox> {
    if added == map[] then w
    else if w.heap.Some? then w.(heap := Some(w.heap.value + added))
    else
      var d := w.delta.GetOr(Delta(None, None));
      w.(delta := Some(d.(put := Some(d.put.GetOr(map[]) + added))))
  }

  function Added(before: Boxes, after: Boxes): Boxes {
    map r | r in after && r !in before :: after[r]
  }

  /** The last step once a returned value turned its heap `before` into `after`. */
  function Patched(w: Wire<GBox>, before: Boxes, after: Boxes): Wire<GBox> {
    WithBoxes(Relinked(w, after), Added(before, after))
  }

  /** The step deletes none of the new boxes, and sent every old box that changed. */
  predicate PatchSafe(w: Wire<GBox>, before: Boxes, after: Boxes) {
    && Added(before, after).Keys !! DelOf(w)
    && forall r | r in before && r in after && before[r] != after[r] :: r in SentBy(w)
  }

  /** Patching keeps the encoding exact if and only if the patch is safe. */
  lemma PatchExactIffSafe(running: Option<Boxes>, w: Wire<GBox>, before: Boxes, after: Boxes)
    requires Apply(true, running, w) == Some(before) && before.Keys <= after.Keys
    requires w.heap.Some? ==> w.delta.None?
    ensures Apply(true, running, Patched(w, before, after)) == Some(after) <==> PatchSafe(w, before, after)
  {
    if w.heap.Some? {
      PatchFull(w, before, after);
    } else {
      PatchDelta(running, w, before, after);
    }
  }

  lemma PatchFull(w: Wire<GBox>, before: Boxes, after: Boxes)
    requires w.heap == Some(before) && w.delta.None? && before.Keys <= after.Keys
    ensures Patched(w, before, after).heap == Some(after) && PatchSafe(w, before, after)
  {
    var added := Added(before, after);
    assert Refreshed(before, after) + added == after;
    if added == map[] {
      assert Refreshed(before, after) + added == Refreshed(before, after);
    }
  }

  lemma PatchDelta(running: Option<Boxes>, w: Wire<GBox>, before: Boxes, after: Boxes)
    requires w.heap.None? && Apply(true, running, w) == Some(before) && before.Keys <= after.Keys
    ensures Apply(true, running, Patched(w, before, after)) == Some(after) <==> PatchSafe(w, before, after)
  {
    var added := Added(before, after);
    var d := w.delta.GetOr(Delta(None, None));
    var put, del := d.put.GetOr(map[]), d.del.GetOr({});
    var was := running.GetOr(map[]);
    assert (was + put) - del == before by {
      assert was + map[] == was && was - {} == was;
    }
    var got := (was + (Refreshed(put, after) + added)) - del;
    PatchedDecodes(running, w, before, after, got);
    OverlayExactIffSafe(was, put, del, before, after);
  }

  /** The same on the maps alone: what was there, what the step sent, what it deleted. */
  lemma OverlayExactIffSafe(was: Boxes, put: Boxes, del: set<Id>, before: Boxes, after: Boxes)
    requires (was + put) - del == before && before.Keys <= after.Keys
    ensures (was + (Refreshed(put, after) + Added(before, after))) - del == after <==>
              && Added(before, after).Keys !! del
              && forall r | r in before && r in after && before[r] != after[r] :: r in put
  {
    var added := Added(before, after);
    var got := (was + (Refreshed(put, after) + added)) - del;
    if got == after {
      forall r | r in added ensures r !in del {
        assert r in after;
      }
      forall r | r in before && r in after && before[r] != after[r] ensures r in put {
        assert r !in added && r in got;
      }
    }
    if added.Keys !! del && forall r | r in before && r in after && before[r] != after[r] :: r in put {
      forall r | r in after ensures r in got && got[r] == after[r] {
        assert r in before || r in added;
      }
      forall r | r in got ensures r in after {
      }
    }
  }

  lemma PatchedDecodes(running: Option<Boxes>, w: Wire<GBox>, before: Boxes, after: Boxes, got: Boxes)
    requires w.heap.None? && Apply(true, running, w) == Some(before)
    requires var d := w.delta.GetOr(Delta(None, None));
             got == (running.GetOr(map[]) + (Refreshed(d.put.GetOr(map[]), after) + Added(before, after)))
                    - d.del.GetOr({})
    ensures Apply(true, running, Patched(w, before, after)) == Some(got)
  {
    var d := w.delta.GetOr(Delta(None, None));
    var added, put := Added(before, after), d.put.GetOr(map[]);
    assert Refreshed(map[], after) == map[];
    assert added == map[] ==> Refreshed(put, after) + added == Refreshed(put, after);
    var was := running.GetOr(map[]);
    assert was + map[] == was && was - {} == was;
  }

  /** Replacing the last step keeps an exact trace exact when the replacement decodes. */
  lemma ReplaceLast(wires: seq<Wire<GBox>>, heaps: seq<Boxes>, w: Wire<GBox>, now: Boxes)
    requires Exact(wires, heaps) && wires != []
    requires Apply(true, After(true, wires[..|wires| - 1]), w) == Some(now)
    ensures Exact(wires[..|wires| - 1] + [w], heaps[..|heaps| - 1] + [now])
  {
    var n := |wires| - 1;
    var wires' := wires[..n] + [w];
    assert wires'[..n] == wires[..n] && wires'[..n + 1] == wires';
    forall i | 0 <= i <= n
      ensures After(true, wires'[..i + 1]) == Some((heaps[..n] + [now])[i])
    {
      if i < n {
        assert wires'[..i + 1] == wires[..i + 1];
      }
    }
  }

  lemma LastDecodes(wires: seq<Wire<GBox>>, heaps: seq<Boxes>)
    requires Exact(wires, heaps) && wires != []
    ensures Apply(true, After(true, wires[..|wires| - 1]), wires[|wires| - 1]) == LastHeap(heaps)
  {
    assert wires[..|wires|] == wires;
  }

  // ---- patched traces -------------------------------------------------------------------

  lemma AppendExact(wires: seq<Wire<GBox>>, heaps: seq<Boxes>, now: Boxes)
    requires |wires| == |heaps|
    ensures Exact(wires + [Encode(LastHeap(heaps), now)], heaps + [now]) <==> Exact(wires, heaps)
  {
    var more := wires + [Encode(LastHeap(heaps), now)];
    assert more[..|wires|] == wires && (heaps + [now])[..|wires|] == heaps;
    if Exact(wires, heaps) {
      ExactAppend(wires, heaps, now);
    }
    if Exact(more, heaps + [now]) {
      ExactPrefixDecodes(more, heaps + [now], |wires|);
    }
  }

  /** The old boxes that changed without having been sent by the step. */
  function Stale(w: Wire<GBox>, before: Boxes, after: Boxes): set<Id> {
    set r | r in before && r in after && before[r] != after[r] && r !in SentBy(w)
  }

  lemma SafeMeans(w: Wire<GBox>, before: Boxes, after: Boxes)
    ensures PatchSafe(w, before, after) <==> Added(before, after).Keys * DelOf(w) == {} && Stale(w, before, after) == {}
  {
    hide SentBy, DelOf;
    var added, stale := Added(before, after), Stale(w, before, after);
    var both := added.Keys * DelOf(w);
    if both == {} {
      forall r | r in added ensures r !in DelOf(w) {
        assert r !in both;
      }
    }
    if PatchSafe(w, before, after) {
      assert stale == {} && both == {};
    }
    if stale == {} {
      forall r | r in before && r in after && before[r] != after[r] ensures r in SentBy(w) {
        assert r !in stale;
      }
    }
  }

  lemma PatchedTrace(wires: seq<Wire<GBox>>, heaps: seq<Boxes>, before: Boxes, after: Boxes)
    requires Exact(wires, heaps) && wires != [] && LastHeap(heaps) == Some(before) && before.Keys <= after.Keys
    requires forall i | 0 <= i < |wires| :: wires[i].heap.Some? ==> wires[i].delta.None?
    ensures var n := |wires| - 1;
            Exact(wires[..n] + [Patched(wires[n], before, after)], heaps[..n] + [after])
            <==> PatchSafe(wires[n], before, after)
  {
    hide PatchSafe, Patched, Apply;
    var n := |wires| - 1;
    var running := After(true, wires[..n]);
    LastDecodes(wires, heaps);
    PatchExactIffSafe(running, wires[n], before, after);
    var wires' := wires[..n] + [Patched(wires[n], before, after)];
    if PatchSafe(wires[n], before, after) {
      ReplaceLast(wires, heaps, Patched(wires[n], before, after), after);
    } else {
      assert wires'[..n + 1] == wires' && wires'[..n] == wires[..n];
      assert After(true, wires'[..n + 1]) == Apply(true, running, wires'[n]);
      assert (heaps[..n] + [after])[n] == after;
    }
  }

  lemma PrefixesDecode(wires: seq<Wire<GBox>>, heaps: seq<Boxes>)
    requires Exact(wires, heaps)
    ensures forall k: nat | k <= |wires| :: Decoded(true, wires[..k]) == heaps[..k]
    ensures Decoded(true, wires) == heaps
  {
    ExactLength(wires, heaps);
    hide Exact, Decoded;
    forall k: nat | k <= |wires| ensures Decoded(true, wires[..k]) == heaps[..k] {
      ExactPrefixDecodes(wires, heaps, k);
    }
    assert wires[..|wires|] == wires && heaps[..|heaps|] == heaps;
  }

  lemma ExactLength(wires: seq<Wire<GBox>>, heaps: seq<Boxes>)
    requires Exact(wires, heaps)
    ensures |heaps| == |wires|
  {
  }

  /** A trace whose every prefix decodes to the given heaps is exact, once its first step is sent whole. */
  lemma DecodesIsExact(wires: seq<Wire<GBox>>, heaps: seq<Boxes>)
    requires |wires| == |heaps| && (wires != [] ==> wires[0].heap.Some?)
    requires forall k: nat | k <= |wires| :: Decoded(true, wires[..k]) == heaps[..k]
    ensures Exact(wires, heaps)
  {
    forall i | 0 <= i < |heaps| ensures After(true, wires[..i + 1]) == Some(heaps[i]) {
      assert Decoded(true, wires[..i + 1]) == heaps[..i + 1];
      assert wires[..i + 1][..i + 1] == wires[..i + 1];
      assert Decoded(true, wires[..i + 1])[i] == heaps[i];
      OnceSent(wires[..i + 1]);
    }
  }

  lemma {:induction false} OnceSent(wires: seq<Wire<GBox>>)
    requires wires != [] && wires[0].heap.Some?
    ensures After(true, wires).Some?
  {
    if |wires| > 1 {
      OnceSent(wires[..|wires| - 1]);
    }
  }
}
