// The bounded rendering of one value, over a value graph that may be cyclic
// (internal/executor/trace_harness.py).
module SafeRepr {
  import opened Options

  const MAX_STR := 256
  const MAX_DEPTH := 4
  const MAX_ITEMS := 30
  const MAX_REPR := 512
  const ELLIPSIS := "\U{2026}"
  const CIRCULAR := "<circular>"
  const TOO_DEEP := "<" + ELLIPSIS + ">"
  const UNREPR := "<unrepr>"

  type Addr = nat

  // A value as the renderer sees it. Printed is a number or bytes by its
  // built-in text; Raises is a built-in whose own text cannot be made.
  datatype Value =
    | NoneValue
    | Bool(b: bool)
    | Printed(text: string)
    | Raises
    | Str(chars: string)
    | Ref(addr: Addr)

  datatype Cell = Item(v: Value) | Pair(k: Value, v: Value)

  datatype Kind = List | Tuple | Set | Dict

  datatype Object = Box(kind: Kind, cells: seq<Cell>) | Opaque(cls: string)

  type Heap = Addr -> Object

  function Clip(s: string): string {
    if |s| > MAX_STR then s[..MAX_STR] + ELLIPSIS else s
  }

  function ClipTotal(s: string): string {
    if |s| > MAX_REPR then s[..MAX_REPR] + ELLIPSIS else s
  }

  function Replace(s: string, c: char, put: string): string {
    if s == "" then "" else (if s[0] == c then put else [s[0]]) + Replace(s[1..], c, put)
  }

  // The replacements in the order the code makes them, backslash first.
  function QuoteStr(s: string): string {
    var s := Replace(s, '\\', "\\\\");
    var s := Replace(s, '\'', "\\'");
    var s := Replace(s, '\n', "\\n");
    var s := Replace(s, '\r', "\\r");
    var s := Replace(s, '\t', "\\t");
    "'" + s + "'"
  }

  function Opening(k: Kind): string {
    match k case List => "[" case Tuple => "(" case Set => "{" case Dict => "{"
  }

  function Closing(k: Kind): string {
    match k case List => "]" case Tuple => ")" case Set => "}" case Dict => "}"
  }

  function Join(parts: seq<string>): string {
    if parts == [] then ""
    else if |parts| == 1 then parts[0]
    else Join(parts[..|parts| - 1]) + ", " + parts[|parts| - 1]
  }

  function SumLen(parts: seq<string>): nat {
    if parts == [] then 0 else SumLen(parts[..|parts| - 1]) + |parts[|parts| - 1]|
  }

  function Left(depth: nat): nat {
    if depth < MAX_DEPTH then MAX_DEPTH - depth else 0
  }

  // ---- the renderer

  function Render(heap: Heap, v: Value, depth: nat, seen: set<Addr>): string
    decreases Left(depth), 2, 0
  {
    match v
    case NoneValue => "None"
    case Bool(b) => if b then "True" else "False"
    case Printed(text) => Clip(text)
    case Raises => UNREPR
    case Str(chars) => Clip(QuoteStr(if |chars| > MAX_STR + 1 then chars[..MAX_STR + 1] else chars))
    case Ref(a) =>
      if a in seen then CIRCULAR
      else if depth >= MAX_DEPTH then TOO_DEEP
      else match heap(a)
        case Box(kind, cells) =>
          ClipTotal(Opening(kind) + Join(Parts(heap, cells, 0, [], depth, seen + {a})) + Closing(kind))
        case Opaque(cls) => "<" + cls + ">"
  }

  function RenderCell(heap: Heap, cell: Cell, depth: nat, seen: set<Addr>): string
    decreases Left(depth), 3, 0
  {
    match cell
    case Item(v) => Render(heap, v, depth, seen)
    case Pair(k, v) => Render(heap, k, depth, seen) + ": " + Render(heap, v, depth, seen)
  }

  // The cells from i on, added to the parts already made.
  function Parts(heap: Heap, cells: seq<Cell>, i: nat, parts: seq<string>, depth: nat, seen: set<Addr>): seq<string>
    requires i <= |cells| && depth < MAX_DEPTH
    decreases Left(depth), 1, |cells| - i
  {
    if i == |cells| then parts
    else if i >= MAX_ITEMS then parts + [ELLIPSIS]
    else
      var parts := parts + [RenderCell(heap, cells[i], depth + 1, seen)];
      if SumLen(parts) > MAX_REPR then parts + [ELLIPSIS]
      else Parts(heap, cells, i + 1, parts, depth, seen)
  }

  // ---- what is shown, part by part

  ghost function CutAt(s: string, n: nat): string {
    if |s| <= n then s else s[..n] + "\U{2026}"
  }

  ghost predicate ShowsCell(part: string, heap: Heap, cell: Cell, depth: nat, seen: set<Addr>) {
    match cell
    case Item(v) => part == Render(heap, v, depth, seen)
    case Pair(k, v) => part == Render(heap, k, depth, seen) + ": " + Render(heap, v, depth, seen)
  }

  // The first n cells, in order, and an ellipsis when the thirtieth is not the
  // last or the text so far has passed the cap: it stops at the first such cell.
  ghost predicate ShowsCells(parts: seq<string>, n: nat, heap: Heap, cells: seq<Cell>, depth: nat, seen: set<Addr>) {
    && n <= |parts| <= n + 1 && n <= |cells| && n <= 30
    && (forall i | 0 <= i < n :: ShowsCell(parts[i], heap, cells[i], depth, seen))
    && (forall m | 0 <= m < n :: SumLen(parts[..m]) <= 512)
    && (|parts| == n + 1 <==> SumLen(parts[..n]) > 512 || n == 30 < |cells|)
    && (|parts| == n + 1 ==> parts[n] == "\U{2026}")
    && (|parts| == n ==> n == |cells|)
  }

  // The first n cells, none of them reached with the cap already passed.
  ghost predicate Begins(parts: seq<string>, n: nat, heap: Heap, cells: seq<Cell>, depth: nat, seen: set<Addr>) {
    && n == |parts| <= |cells| && n <= 30
    && (forall i | 0 <= i < n :: ShowsCell(parts[i], heap, cells[i], depth, seen))
    && (forall m | 0 <= m < n :: SumLen(parts[..m]) <= 512)
  }

  lemma BeginsWithOneMore(parts: seq<string>, n: nat, part: string, heap: Heap, cells: seq<Cell>, depth: nat,
                          seen: set<Addr>)
    requires Begins(parts, n, heap, cells, depth, seen) && n < |cells| && n < 30 && SumLen(parts) <= 512
    requires ShowsCell(part, heap, cells[n], depth, seen)
    ensures Begins(parts + [part], n + 1, heap, cells, depth, seen)
  {
    hide ShowsCell, SumLen;
    assert parts[..n] == parts;
    assert forall m | 0 <= m <= n :: (parts + [part])[..m] == parts[..m];
  }

  lemma CutShort(parts: seq<string>, n: nat, heap: Heap, cells: seq<Cell>, depth: nat, seen: set<Addr>)
    requires Begins(parts, n, heap, cells, depth, seen) && (SumLen(parts) > 512 || n == 30 < |cells|)
    ensures ShowsCells(parts + [ELLIPSIS], n, heap, cells, depth, seen)
  {
    hide ShowsCell, SumLen;
    assert (parts + [ELLIPSIS])[..n] == parts;
    assert forall m | 0 <= m < n :: (parts + [ELLIPSIS])[..m] == parts[..m];
  }

  lemma {:induction false} PartsShow(heap: Heap, cells: seq<Cell>, i: nat, parts: seq<string>, depth: nat,
                                     seen: set<Addr>) returns (n: nat)
    requires Begins(parts, i, heap, cells, depth + 1, seen) && SumLen(parts) <= 512 && depth < MAX_DEPTH
    ensures ShowsCells(Parts(heap, cells, i, parts, depth, seen), n, heap, cells, depth + 1, seen)
    decreases |cells| - i
  {
    hide Render, SumLen, ShowsCell;
    n := i;
    if i == |cells| {
      assert parts[..i] == parts;
    } else if i >= MAX_ITEMS {
      CutShort(parts, i, heap, cells, depth + 1, seen);
    } else {
      hide Begins, ShowsCells;
      var part := RenderCell(heap, cells[i], depth + 1, seen);
      CellShows(heap, cells[i], depth + 1, seen);
      BeginsWithOneMore(parts, i, part, heap, cells, depth + 1, seen);
      if SumLen(parts + [part]) > MAX_REPR {
        n := i + 1;
        CutShort(parts + [part], i + 1, heap, cells, depth + 1, seen);
      } else {
        n := PartsShow(heap, cells, i + 1, parts + [part], depth, seen);
      }
    }
  }

  lemma CellShows(heap: Heap, cell: Cell, depth: nat, seen: set<Addr>)
    ensures ShowsCell(RenderCell(heap, cell, depth, seen), heap, cell, depth, seen)
  {
    hide Render;
  }

  // A text is what separates its parts put between them.
  lemma {:induction false} JoinAppend(a: seq<string>, b: seq<string>)
    requires a != [] && b != []
    ensures Join(a + b) == Join(a) + ", " + Join(b)
    decreases |b|
  {
    var n := |b| - 1;
    assert (a + b)[..|a + b| - 1] == a + b[..n];
    if n > 0 {
      JoinAppend(a, b[..n]);
    } else {
      assert a + b[..n] == a;
    }
  }

  ghost predicate Wraps(r: string, kind: Kind, inside: string) {
    match kind
    case List => r == CutAt("[" + inside + "]", 512)
    case Tuple => r == CutAt("(" + inside + ")", 512)
    case Set => r == CutAt("{" + inside + "}", 512)
    case Dict => r == CutAt("{" + inside + "}", 512)
  }

  ghost predicate ContainerText(r: string, heap: Heap, kind: Kind, cells: seq<Cell>, depth: nat, seen: set<Addr>) {
    exists parts, n :: ShowsCells(parts, n, heap, cells, depth, seen) && Wraps(r, kind, Join(parts))
  }

  // What a value's text is: for a container its brackets around the text of its
  // cells, cut at 512 characters.
  lemma RenderShows(heap: Heap, v: Value, depth: nat, seen: set<Addr>)
    ensures var r := Render(heap, v, depth, seen);
            match v
            case NoneValue => r == "None"
            case Bool(b) => r == if b then "True" else "False"
            case Printed(text) => r == CutAt(text, 256)
            case Raises => r == "<unrepr>"
            case Str(_) => true
            case Ref(a) =>
              if a in seen then r == "<circular>"
              else if depth >= 4 then r == "<\U{2026}>"
              else match heap(a)
                case Opaque(cls) => r == "<" + cls + ">"
                case Box(kind, cells) =>
                  ContainerText(r, heap, kind, cells, depth + 1, seen + {a})
  {
    hide ShowsCells;
    if v.Ref? && v.addr !in seen && depth < MAX_DEPTH && heap(v.addr).Box? {
      var n := PartsShow(heap, heap(v.addr).cells, 0, [], depth, seen + {v.addr});
      var parts := Parts(heap, heap(v.addr).cells, 0, [], depth, seen + {v.addr});
      assert ShowsCells(parts, n, heap, heap(v.addr).cells, depth + 1, seen + {v.addr});
    }
  }

  // ---- size: what is returned, and what is built on the way

  lemma ResultIsBounded(heap: Heap, v: Value, depth: nat, seen: set<Addr>)
    ensures var r := Render(heap, v, depth, seen);
      && (!v.Ref? ==> |r| <= MAX_STR + 1)
      && (v.Ref? && heap(v.addr).Box? ==> |r| <= MAX_REPR + 1)
      && (v.Ref? && heap(v.addr).Opaque? ==> |r| <= |heap(v.addr).cls| + 2 || |r| <= |CIRCULAR|)
  {
  }

  // Class names are not clipped; this bounds them.
  ghost predicate NamesWithin(heap: Heap, longest: nat) {
    forall a :: heap(a).Opaque? ==> |heap(a).cls| <= longest
  }

  // Before it is clipped, a container's text is at most the total cap and one
  // more cell, whatever the size or shape of the container: nothing huge is
  // ever put together and then cut.
  lemma {:induction false} PartsAreBounded(heap: Heap, cells: seq<Cell>, i: nat, parts: seq<string>,
                                           depth: nat, seen: set<Addr>, longest: nat)
    requires i <= |cells| && depth < MAX_DEPTH
    requires NamesWithin(heap, longest) && longest >= MAX_REPR
    requires |parts| == i <= MAX_ITEMS && SumLen(parts) <= MAX_REPR
    ensures var made := Parts(heap, cells, i, parts, depth, seen);
      |made| <= MAX_ITEMS + 1 && SumLen(made) <= MAX_REPR + 2 * (longest + 2) + 3
    decreases |cells| - i
  {
    if i < |cells| && i < MAX_ITEMS {
      var part := RenderCell(heap, cells[i], depth + 1, seen);
      CellIsBounded(heap, cells[i], depth + 1, seen, longest);
      SumLenAppend(parts, part);
      if SumLen(parts + [part]) > MAX_REPR {
        SumLenAppend(parts + [part], ELLIPSIS);
      } else {
        PartsAreBounded(heap, cells, i + 1, parts + [part], depth, seen, longest);
      }
    } else {
      SumLenAppend(parts, ELLIPSIS);
    }
  }

  lemma CellIsBounded(heap: Heap, cell: Cell, depth: nat, seen: set<Addr>, longest: nat)
    requires NamesWithin(heap, longest) && longest >= MAX_REPR
    ensures |RenderCell(heap, cell, depth, seen)| <= 2 * (longest + 2) + 2
  {
    match cell {
      case Item(v) => ResultIsBounded(heap, v, depth, seen);
      case Pair(k, v) =>
        ResultIsBounded(heap, k, depth, seen);
        ResultIsBounded(heap, v, depth, seen);
    }
  }

  lemma SumLenAppend(parts: seq<string>, part: string)
    ensures SumLen(parts + [part]) == SumLen(parts) + |part|
  {
    assert (parts + [part])[..|parts|] == parts;
  }

  // ---- "<circular>" marks ancestors only

  // The same renderer with no memory of where it has been.
  function Plain(heap: Heap, v: Value, depth: nat): string
    decreases Left(depth), 2, 0
  {
    if v.Ref? then
      if depth >= MAX_DEPTH then TOO_DEEP
      else match heap(v.addr)
        case Box(kind, cells) => ClipTotal(Opening(kind) + Join(PlainParts(heap, cells, 0, [], depth)) + Closing(kind))
        case Opaque(cls) => "<" + cls + ">"
    else Render(heap, v, depth, {})
  }

  function PlainCell(heap: Heap, cell: Cell, depth: nat): string
    decreases Left(depth), 3, 0
  {
    match cell
    case Item(v) => Plain(heap, v, depth)
    case Pair(k, v) => Plain(heap, k, depth) + ": " + Plain(heap, v, depth)
  }

  function PlainParts(heap: Heap, cells: seq<Cell>, i: nat, parts: seq<string>, depth: nat): seq<string>
    requires i <= |cells| && depth < MAX_DEPTH
    decreases Left(depth), 1, |cells| - i
  {
    if i == |cells| then parts
    else if i >= MAX_ITEMS then parts + [ELLIPSIS]
    else
      var parts := parts + [PlainCell(heap, cells[i], depth + 1)];
      if SumLen(parts) > MAX_REPR then parts + [ELLIPSIS]
      else PlainParts(heap, cells, i + 1, parts, depth)
  }

  ghost predicate InCell(w: Value, cell: Cell) {
    w == cell.v || (cell.Pair? && w == cell.k)
  }

  ghost predicate IsChild(o: Object, w: Value) {
    o.Box? && exists cell :: cell in o.cells && InCell(w, cell)
  }

  // Within the depth still left, no descent from v comes back to `seen` or to
  // an object it has already gone through.
  ghost predicate Straight(heap: Heap, v: Value, depth: nat, seen: set<Addr>)
    decreases Left(depth)
  {
    v.Ref? ==>
      && v.addr !in seen
      && (depth < MAX_DEPTH ==>
            forall w :: IsChild(heap(v.addr), w) ==> Straight(heap, w, depth + 1, seen + {v.addr}))
  }

  lemma {:induction false} StraightIsPlain(heap: Heap, v: Value, depth: nat, seen: set<Addr>)
    requires Straight(heap, v, depth, seen)
    ensures Render(heap, v, depth, seen) == Plain(heap, v, depth)
    decreases Left(depth), 1, 0
  {
    if v.Ref? && depth < MAX_DEPTH && heap(v.addr).Box? {
      StraightParts(heap, v, 0, [], depth, seen);
    }
  }

  lemma {:induction false} StraightParts(heap: Heap, v: Value, i: nat, parts: seq<string>, depth: nat, seen: set<Addr>)
    requires v.Ref? && depth < MAX_DEPTH && heap(v.addr).Box? && i <= |heap(v.addr).cells|
    requires Straight(heap, v, depth, seen)
    ensures Parts(heap, heap(v.addr).cells, i, parts, depth, seen + {v.addr})
         == PlainParts(heap, heap(v.addr).cells, i, parts, depth)
    decreases Left(depth), 0, |heap(v.addr).cells| - i
  {
    var cells := heap(v.addr).cells;
    if i < |cells| && i < MAX_ITEMS {
      assert cells[i] in cells;
      forall w | InCell(w, cells[i])
        ensures Render(heap, w, depth + 1, seen + {v.addr}) == Plain(heap, w, depth + 1)
      {
        assert IsChild(heap(v.addr), w);
        StraightIsPlain(heap, w, depth + 1, seen + {v.addr});
      }
      var part := RenderCell(heap, cells[i], depth + 1, seen + {v.addr});
      assert part == PlainCell(heap, cells[i], depth + 1) by {
        assert InCell(cells[i].v, cells[i]);
        if cells[i].Pair? {
          assert InCell(cells[i].k, cells[i]);
        }
      }
      if SumLen(parts + [part]) <= MAX_REPR {
        StraightParts(heap, v, i + 1, parts + [part], depth, seen);
      }
    }
  }

  // A descent: each object is a child of the one before.
  ghost predicate IsWalk(heap: Heap, p: seq<Addr>) {
    forall i :: 0 <= i < |p| - 1 ==> IsChild(heap(p[i]), Ref(p[i + 1]))
  }

  // A descent of at most five objects that ends on one of its own ancestors.
  ghost predicate ClosesOn(heap: Heap, a: Addr, p: seq<Addr>) {
    && 1 < |p| <= MAX_DEPTH + 1 && p[0] == a && IsWalk(heap, p)
    && p[|p| - 1] in p[..|p| - 1]
  }

  ghost function Members(p: seq<Addr>): set<Addr> {
    set a | a in p
  }

  lemma {:induction false} CrookedCloses(heap: Heap, v: Value, path: seq<Addr>) returns (p: seq<Addr>)
    requires v.Ref? && |path| <= MAX_DEPTH && IsWalk(heap, path + [v.addr])
    requires !Straight(heap, v, |path|, Members(path))
    ensures ClosesOn(heap, (path + [v.addr])[0], p)
    decreases MAX_DEPTH - |path|
  {
    var here := path + [v.addr];
    if v.addr in path {
      p := here;
      assert p[..|p| - 1] == path;
    } else {
      assert Members(here) == Members(path) + {v.addr};
      var w :| IsChild(heap(v.addr), w) && !Straight(heap, w, |path| + 1, Members(here));
      assert IsWalk(heap, here + [w.addr]);
      p := CrookedCloses(heap, w, here);
      assert (here + [w.addr])[0] == here[0];
    }
  }

  // The mark changes a rendering only when the value really contains itself
  // within the depth that is walked. A merely shared child never gets it.
  lemma CircularMeansAncestor(heap: Heap, v: Value) returns (p: seq<Addr>)
    requires Render(heap, v, 0, {}) != Plain(heap, v, 0)
    ensures v.Ref? && ClosesOn(heap, v.addr, p)
  {
    if Straight(heap, v, 0, {}) {
      StraightIsPlain(heap, v, 0, {});
    }
    assert Members([]) == {};
    assert [] + [v.addr] == [v.addr];
    p := CrookedCloses(heap, v, []);
  }

  // So a graph that can be ranked, with any amount of sharing, is rendered as
  // if there were no check at all.
  lemma SharingIsPlain(heap: Heap, v: Value, rank: Addr -> int)
    requires forall a, b :: IsChild(heap(a), Ref(b)) ==> rank(b) < rank(a)
    ensures Render(heap, v, 0, {}) == Plain(heap, v, 0)
  {
    if Render(heap, v, 0, {}) != Plain(heap, v, 0) {
      var p := CircularMeansAncestor(heap, v);
      var i :| 0 <= i < |p| - 1 && p[i] == p[|p| - 1];
      RankFalls(heap, p, rank, i, |p| - 1);
      assert false;
    }
  }

  lemma {:induction false} RankFalls(heap: Heap, p: seq<Addr>, rank: Addr -> int, i: nat, j: nat)
    requires forall a, b :: IsChild(heap(a), Ref(b)) ==> rank(b) < rank(a)
    requires IsWalk(heap, p) && i < j < |p|
    ensures rank(p[j]) < rank(p[i])
  {
    assert IsChild(heap(p[j - 1]), Ref(p[j - 1 + 1]));
    if i < j - 1 {
      RankFalls(heap, p, rank, i, j - 1);
    }
  }

  // And a list that holds itself does get it.
  lemma SelfHolderIsMarked(heap: Heap, a: Addr)
    requires heap(a) == Box(List, [Item(Ref(a))])
    ensures Render(heap, Ref(a), 0, {}) == "[" + CIRCULAR + "]"
  {
    var cells := [Item(Ref(a))];
    SumLenAppend([], CIRCULAR);
    assert [] + [CIRCULAR] == [CIRCULAR];
    assert RenderCell(heap, cells[0], 1, {a}) == CIRCULAR;
    assert Parts(heap, cells, 1, [CIRCULAR], 0, {a}) == [CIRCULAR];
    assert {} + {a} == {a};
  }

  // ---- quoting

  // One escape per character, in one pass.
  function Escape(c: char): string {
    match c
    case '\\' => "\\\\"
    case '\'' => "\\'"
    case '\n' => "\\n"
    case '\r' => "\\r"
    case '\t' => "\\t"
    case _ => [c]
  }

  function Escaped(s: string): string {
    if s == "" then "" else Escape(s[0]) + Escaped(s[1..])
  }

  // Reading the escapes back; None for a text that ends inside one.
  function Unescape(s: string): Option<string> {
    if s == "" then Some("")
    else if s[0] != '\\' then
      var rest := Unescape(s[1..]);
      if rest.None? then None else Some([s[0]] + rest.value)
    else if |s| < 2 then None
    else
      var rest := Unescape(s[2..]);
      var c := match s[1] case 'n' => '\n' case 'r' => '\r' case 't' => '\t' case c => c;
      if rest.None? then None else Some([c] + rest.value)
  }

  function Unquote(s: string): Option<string> {
    if |s| >= 2 then Unescape(s[1..|s| - 1]) else None
  }

  lemma {:induction false} ReplaceConcat(a: string, b: string, c: char, put: string)
    ensures Replace(a + b, c, put) == Replace(a, c, put) + Replace(b, c, put)
  {
    if a == "" {
      assert a + b == b;
    } else {
      assert (a + b)[1..] == a[1..] + b;
      ReplaceConcat(a[1..], b, c, put);
    }
  }

  // Five replacements one after the other never touch each other's output.
  function Chained(s: string): string {
    Replace(Replace(Replace(Replace(Replace(s, '\\', "\\\\"), '\'', "\\'"), '\n', "\\n"), '\r', "\\r"), '\t', "\\t")
  }

  lemma ChainedConcat(a: string, b: string)
    ensures Chained(a + b) == Chained(a) + Chained(b)
  {
    ReplaceConcat(a, b, '\\', "\\\\");
    var a1, b1 := Replace(a, '\\', "\\\\"), Replace(b, '\\', "\\\\");
    ReplaceConcat(a1, b1, '\'', "\\'");
    var a2, b2 := Replace(a1, '\'', "\\'"), Replace(b1, '\'', "\\'");
    ReplaceConcat(a2, b2, '\n', "\\n");
    var a3, b3 := Replace(a2, '\n', "\\n"), Replace(b2, '\n', "\\n");
    ReplaceConcat(a3, b3, '\r', "\\r");
    ReplaceConcat(Replace(a3, '\r', "\\r"), Replace(b3, '\r', "\\r"), '\t', "\\t");
  }

  lemma ReplaceOne(a: char, c: char, put: string)
    ensures Replace([a], c, put) == if a == c then put else [a]
  {
  }

  lemma ReplaceTwo(a: char, b: char, c: char, put: string)
    requires a != c && b != c
    ensures Replace([a, b], c, put) == [a, b]
  {
    assert [a, b][1..] == [b];
    ReplaceOne(b, c, put);
  }

  lemma ChainedOne(c: char)
    ensures Chained([c]) == Escape(c)
  {
    ReplaceOne(c, '\\', "\\\\");
    if c == '\\' {
      ReplaceTwo('\\', '\\', '\'', "\\'");
      ReplaceTwo('\\', '\\', '\n', "\\n");
      ReplaceTwo('\\', '\\', '\r', "\\r");
      ReplaceTwo('\\', '\\', '\t', "\\t");
    } else {
      ReplaceOne(c, '\'', "\\'");
      if c == '\'' {
        ReplaceTwo('\\', '\'', '\n', "\\n");
        ReplaceTwo('\\', '\'', '\r', "\\r");
        ReplaceTwo('\\', '\'', '\t', "\\t");
      } else {
        ReplaceOne(c, '\n', "\\n");
        if c == '\n' {
          ReplaceTwo('\\', 'n', '\r', "\\r");
          ReplaceTwo('\\', 'n', '\t', "\\t");
        } else {
          ReplaceOne(c, '\r', "\\r");
          if c == '\r' {
            ReplaceTwo('\\', 'r', '\t', "\\t");
          } else {
            ReplaceOne(c, '\t', "\\t");
          }
        }
      }
    }
  }

  lemma {:induction false} ChainIsOnePass(s: string)
    ensures QuoteStr(s) == "'" + Escaped(s) + "'"
  {
    assert QuoteStr(s) == "'" + Chained(s) + "'";
    ChainedIsEscaped(s);
  }

  lemma {:induction false} ChainedIsEscaped(s: string)
    ensures Chained(s) == Escaped(s)
  {
    if s != "" {
      assert s == [s[0]] + s[1..];
      ChainedConcat([s[0]], s[1..]);
      ChainedOne(s[0]);
      ChainedIsEscaped(s[1..]);
    }
  }

  lemma {:induction false} UnescapeEscaped(s: string)
    ensures Unescape(Escaped(s)) == Some(s)
    ensures |Escaped(s)| >= |s|
  {
    if s != "" {
      var e, rest := Escape(s[0]), Escaped(s[1..]);
      UnescapeEscaped(s[1..]);
      assert (e + rest)[|e|..] == rest;
      assert s == [s[0]] + s[1..];
    }
  }

  // The rendered text of a string is on one line.
  lemma {:induction false} EscapedIsOneLine(s: string)
    ensures forall c :: c in Escaped(s) ==> c != '\n' && c != '\r' && c != '\t'
  {
    if s != "" {
      EscapedIsOneLine(s[1..]);
    }
  }

  // A string whose quoted text fits is shown exactly: it can be read back, so
  // two different strings that fit never look alike.
  lemma FittingStringsAreExact(heap: Heap, chars: string, depth: nat, seen: set<Addr>)
    requires |QuoteStr(chars)| <= MAX_STR
    ensures Unquote(Render(heap, Str(chars), depth, seen)) == Some(chars)
  {
    ChainIsOnePass(chars);
    UnescapeEscaped(chars);
    var r := QuoteStr(chars);
    assert r[1..|r| - 1] == Escaped(chars);
  }

  // One that does not fit shows a strict prefix of its quoted text, and says so.
  lemma LongStringsAreCut(heap: Heap, chars: string, depth: nat, seen: set<Addr>)
    requires |QuoteStr(chars)| > MAX_STR
    ensures Render(heap, Str(chars), depth, seen) == QuoteStr(chars)[..MAX_STR] + ELLIPSIS
  {
    var kept := if |chars| > MAX_STR + 1 then chars[..MAX_STR + 1] else chars;
    ChainIsOnePass(chars);
    ChainIsOnePass(kept);
    UnescapeEscaped(kept);
    if |chars| > MAX_STR + 1 {
      assert chars == kept + chars[MAX_STR + 1..];
      EscapedConcat(kept, chars[MAX_STR + 1..]);
      assert QuoteStr(chars)[..MAX_STR] == ("'" + Escaped(kept))[..MAX_STR] == QuoteStr(kept)[..MAX_STR];
    }
  }

  lemma {:induction false} EscapedConcat(a: string, b: string)
    ensures Escaped(a + b) == Escaped(a) + Escaped(b)
  {
    if a == "" {
      assert a + b == b;
    } else {
      assert (a + b)[1..] == a[1..] + b;
      EscapedConcat(a[1..], b);
    }
  }
}
