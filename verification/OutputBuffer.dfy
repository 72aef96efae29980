// The capped capture buffer of one output stream, specified over the whole
// sequence of writes it has received (internal/executor/buffer.go).
module OutputBuffer {

  newtype Byte = x: int | 0 <= x < 256

  // "\n[output truncated]"
  const MARKER: seq<Byte> :=
    [10, 91, 111, 117, 116, 112, 117, 116, 32, 116, 114, 117, 110, 99, 97, 116, 101, 100, 93]

  /** Everything written so far, in order. */
  ghost function Flat(ws: seq<seq<Byte>>): seq<Byte> {
    if ws == [] then [] else Flat(ws[..|ws| - 1]) + ws[|ws| - 1]
  }

  ghost function Cap(limit: int): nat {
    if limit < 0 then 0 else limit
  }

  ghost function Prefix(s: seq<Byte>, n: nat): seq<Byte> {
    if |s| <= n then s else s[..n]
  }

  /**
   * When the stream counts as truncated: more bytes than the cap arrived, or
   * an empty write found the buffer already full.
   */
  ghost predicate Truncates(ws: seq<seq<Byte>>, limit: int) {
    || |Flat(ws)| > Cap(limit)
    || exists k :: 0 <= k < |ws| && EmptyWhenFull(ws, limit, k)
  }

  ghost predicate EmptyWhenFull(ws: seq<seq<Byte>>, limit: int, k: nat)
    requires k < |ws|
  {
    ws[k] == [] && |Flat(ws[..k])| >= Cap(limit)
  }

  class LimitedBuffer {
    var buf: seq<Byte>
    const limit: int
    var truncated: bool
    const listens: bool      // onLimit is set
    var fired: nat           // how often onLimit has been called
    ghost var writes: seq<seq<Byte>>

    ghost predicate Valid()
      reads this
    {
      && buf == Prefix(Flat(writes), Cap(limit))
      && (truncated <==> Truncates(writes, limit))
      && fired == (if truncated && listens then 1 else 0)
    }

    constructor (limit: int, listens: bool)
      ensures Valid() && writes == [] && buf == [] && !truncated
      ensures this.limit == limit && this.listens == listens
    {
      this.limit, this.listens := limit, listens;
      buf, truncated, fired, writes := [], false, 0, [];
    }

    method Write(p: seq<Byte>) returns (n: nat)
      requires Valid()
      modifies this
      ensures Valid()
      ensures writes == old(writes) + [p]
      ensures n == |p|
    {
      Appended(writes, p, limit);
      writes := writes + [p];
      var remaining := limit - |buf|;
      if remaining <= 0 {
        MarkTruncated();
        return |p|;
      }
      if |p| > remaining {
        buf := buf + p[..remaining];
        MarkTruncated();
        return |p|;
      }
      buf := buf + p;
      n := |p|;
    }

    method MarkTruncated()
      modifies this`truncated, this`fired
      ensures truncated
      ensures fired == old(fired) + (if !old(truncated) && listens then 1 else 0)
    {
      if truncated {
        return;
      }
      truncated := true;
      if listens {
        fired := fired + 1;
      }
    }

    // The marker follows the captured bytes exactly when bytes were lost.
    method String() returns (s: seq<Byte>)
      requires Valid()
      ensures s == Prefix(Flat(writes), Cap(limit)) + (if Truncates(writes, limit) then MARKER else [])
    {
      s := buf;
      if truncated {
        s := s + MARKER;
      }
    }

    method Raw() returns (s: seq<Byte>)
      requires Valid()
      ensures s == Prefix(Flat(writes), Cap(limit))
    {
      s := buf;
    }
  }

  // One more write, stated on the history: what it adds to the concatenation
  // and when it is the write that makes the stream truncated.
  lemma Appended(ws: seq<seq<Byte>>, p: seq<Byte>, limit: int)
    ensures Flat(ws + [p]) == Flat(ws) + p
    ensures Truncates(ws + [p], limit) <==>
              || Truncates(ws, limit)
              || |Flat(ws)| + |p| > Cap(limit)
              || (p == [] && |Flat(ws)| >= Cap(limit))
  {
    var next := ws + [p];
    assert next[..|ws|] == ws;
    forall k | 0 <= k < |ws|
      ensures EmptyWhenFull(next, limit, k) <==> EmptyWhenFull(ws, limit, k)
    {
      assert next[..k] == ws[..k];
    }
    if Truncates(ws, limit) && |Flat(ws)| <= Cap(limit) {
      var k :| 0 <= k < |ws| && EmptyWhenFull(ws, limit, k);
      assert EmptyWhenFull(next, limit, k);
    }
    if p == [] && |Flat(ws)| >= Cap(limit) {
      assert EmptyWhenFull(next, limit, |ws|);
    }
  }

  ghost predicate AllNonEmpty(ws: seq<seq<Byte>>) {
    forall w :: w in ws ==> w != []
  }

  // For writers that never send an empty chunk the flag means what its name says.
  lemma TruncatedIffOverLimit(ws: seq<seq<Byte>>, limit: int)
    requires AllNonEmpty(ws)
    ensures Truncates(ws, limit) <==> |Flat(ws)| > Cap(limit)
  {
    forall k | 0 <= k < |ws|
      ensures !EmptyWhenFull(ws, limit, k)
    {
      assert ws[k] in ws;
    }
  }

  // How the child's output was cut into chunks is invisible: same capture,
  // same verdict, same single callback.
  lemma ChunkingIsInvisible(a: LimitedBuffer, b: LimitedBuffer)
    requires a.Valid() && b.Valid()
    requires a.limit == b.limit && a.listens == b.listens
    requires AllNonEmpty(a.writes) && AllNonEmpty(b.writes)
    requires Flat(a.writes) == Flat(b.writes)
    ensures a.buf == b.buf && a.truncated == b.truncated && a.fired == b.fired
  {
    TruncatedIffOverLimit(a.writes, a.limit);
    TruncatedIffOverLimit(b.writes, b.limit);
  }

  // Without that condition the flag can be set although nothing was lost: a
  // full buffer followed by an empty write.
  lemma EmptyWriteAtTheBrimTruncates(full: seq<Byte>)
    ensures Truncates([full, []], |full|)
    ensures Prefix(Flat([full, []]), |full|) == Flat([full, []]) == full
  {
    var ws := [full, []];
    assert ws[..1] == [full];
    assert [full][..0] == [];
    assert Flat([full]) == full;
    assert EmptyWhenFull(ws, |full|, 1);
  }
}
