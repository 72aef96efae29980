/**
  Slash paths: splitting, joining, lexical cleaning (the documented rules of Go's
  `path.Clean`), extensions, and the two path grammars of filepolicy.go.  A string is its
  bytes; everything the grammars admit is ASCII.
 */
module Paths {

  // ---- splitting and joining -----------------------------------------------------------

  /** One more character at the front of the first component. */
  function Extend(c: char, cs: seq<string>): seq<string>
    requires cs != []
  {
    [[c] + cs[0]] + cs[1..]
  }

  lemma ExtendAppend(c: char, x: seq<string>, y: seq<string>)
    requires x != []
    ensures Extend(c, x + y) == Extend(c, x) + y
  {
    assert (x + y)[1..] == x[1..] + y;
  }

  /** `strings.Split(s, "/")`. */
  function Split(s: string): (r: seq<string>)
    ensures r != []
  {
    if s == [] then [""]
    else
      var rest := Split(s[1..]);
      if s[0] == '/' then [""] + rest else Extend(s[0], rest)
  }

  function Join(cs: seq<string>): string {
    if cs == [] then ""
    else if |cs| == 1 then cs[0]
    else cs[0] + "/" + Join(cs[1..])
  }

  lemma {:induction false} JoinSplit(s: string)
    ensures Join(Split(s)) == s
  {
    if s != [] {
      var rest := Split(s[1..]);
      JoinSplit(s[1..]);
      if s[0] == '/' {
        assert ([""] + rest)[1..] == rest;
      } else {
        var cs := [[s[0]] + rest[0]] + rest[1..];
        assert cs[1..] == rest[1..];
        if |rest| > 1 {
          assert [s[0]] + rest[0] + "/" + Join(rest[1..]) == [s[0]] + (rest[0] + "/" + Join(rest[1..]));
        }
      }
      assert [s[0]] + s[1..] == s;
    }
  }

  predicate NoSlash(s: string) {
    forall i | 0 <= i < |s| :: s[i] != '/'
  }

  lemma {:induction false} SplitComponents(s: string)
    ensures forall c | c in Split(s) :: NoSlash(c) && forall i | 0 <= i < |c| :: c[i] in s
  {
    if s != [] {
      var rest := Split(s[1..]);
      SplitComponents(s[1..]);
      forall c | c in Split(s) ensures NoSlash(c) && forall i | 0 <= i < |c| :: c[i] in s {
        if c !in rest {
          if s[0] != '/' {
            assert rest[0] in rest;
          }
        }
      }
    }
  }

  lemma {:induction false} SplitNoSlash(c: string, rest: string)
    requires NoSlash(c)
    ensures Split(c + "/" + rest) == [c] + Split(rest)
    ensures Split(c) == [c]
  {
    if c == [] {
      assert ("" + "/" + rest)[1..] == rest;
    } else {
      var s := c + "/" + rest;
      assert s[1..] == c[1..] + "/" + rest;
      SplitNoSlash(c[1..], rest);
      assert [c[0]] + c[1..] == c;
      assert ([c[1..]] + Split(rest))[1..] == Split(rest);
    }
  }

  lemma {:induction false} SplitJoin(cs: seq<string>)
    requires cs != [] && forall c | c in cs :: NoSlash(c)
    ensures Split(Join(cs)) == cs
  {
    SplitNoSlash(cs[0], Join(cs[1..]));
    if |cs| > 1 {
      SplitJoin(cs[1..]);
      assert cs == [cs[0]] + cs[1..];
    } else {
      assert cs == [cs[0]];
    }
  }

  lemma SplitFirst(c: char, t: string)
    ensures Split([c] + t) ==
            if c == '/' then [""] + Split(t) else Extend(c, Split(t))
  {
    assert ([c] + t)[1..] == t;
  }

  lemma {:induction false} SplitAppend(a: string, b: string)
    ensures Split(a + "/" + b) == Split(a) + Split(b)
  {
    if a == [] {
      assert "" + "/" + b == ['/'] + b;
      SplitFirst('/', b);
    } else {
      var t := a[1..] + "/" + b;
      assert a + "/" + b == [a[0]] + t && [a[0]] + a[1..] == a;
      SplitAppend(a[1..], b);
      SplitFirst(a[0], t);
      SplitFirst(a[0], a[1..]);
      hide Split, Extend;
      if a[0] == '/' {
        assert [""] + (Split(a[1..]) + Split(b)) == [""] + Split(a[1..]) + Split(b);
      } else {
        ExtendAppend(a[0], Split(a[1..]), Split(b));
      }
    }
  }

  // ---- lexical cleaning --------------------------------------------------------------------

  /** One component against the components kept so far. */
  function CleanStep(kept: seq<string>, c: string, rooted: bool): seq<string> {
    if c == "" || c == "." then kept
    else if c == ".." then
      if kept != [] && kept[|kept| - 1] != ".." then kept[..|kept| - 1]
      else if rooted then kept
      else kept + [".."]
    else kept + [c]
  }

  function CleanAll(kept: seq<string>, cs: seq<string>, rooted: bool): seq<string>
    decreases |cs|
  {
    if cs == [] then kept else CleanAll(CleanStep(kept, cs[0], rooted), cs[1..], rooted)
  }

  function Clean(p: string): string {
    if p == "" then "."
    else
      var rooted := p[0] == '/';
      Render(CleanAll([], Split(p), rooted), rooted)
  }

  function Render(kept: seq<string>, rooted: bool): string {
    if rooted then "/" + Join(kept) else if kept == [] then "." else Join(kept)
  }

  predicate Ordinary(c: string) {
    c != "" && c != "." && c != ".."
  }

  lemma {:induction false} CleanKeepsOrdinary(kept: seq<string>, cs: seq<string>, rooted: bool)
    requires forall c | c in cs :: Ordinary(c)
    ensures CleanAll(kept, cs, rooted) == kept + cs
    decreases |cs|
  {
    if cs != [] {
      assert cs[0] in cs;
      CleanKeepsOrdinary(kept + [cs[0]], cs[1..], rooted);
      assert kept + [cs[0]] + cs[1..] == kept + cs;
    } else {
      assert kept + [] == kept;
    }
  }

  lemma {:induction false} CleanAppend(kept: seq<string>, a: seq<string>, b: seq<string>, rooted: bool)
    ensures CleanAll(kept, a + b, rooted) == CleanAll(CleanAll(kept, a, rooted), b, rooted)
    decreases |a|
  {
    if a == [] {
      assert a + b == b;
    } else {
      assert (a + b)[0] == a[0] && (a + b)[1..] == a[1..] + b;
      CleanAppend(CleanStep(kept, a[0], rooted), a[1..], b, rooted);
    }
  }

  lemma {:induction false} JoinAppend(a: seq<string>, b: seq<string>)
    requires a != [] && b != []
    ensures Join(a + b) == Join(a) + "/" + Join(b)
  {
    assert (a + b)[0] == a[0] && (a + b)[1..] == a[1..] + b;
    if |a| > 1 {
      JoinAppend(a[1..], b);
      assert a[0] + "/" + (Join(a[1..]) + "/" + Join(b)) == a[0] + "/" + Join(a[1..]) + "/" + Join(b);
    } else {
      assert a[1..] + b == b;
    }
  }

  // ---- grammars ------------------------------------------------------------------------------

  predicate IsAlnum_(c: char) {
    'A' <= c <= 'Z' || 'a' <= c <= 'z' || '0' <= c <= '9' || c == '_'
  }

  /** `^[A-Za-z0-9_][A-Za-z0-9._/-]*$` */
  predicate PathGrammar(s: string) {
    s != [] && IsAlnum_(s[0])
    && forall i | 0 <= i < |s| :: IsAlnum_(s[i]) || s[i] == '.' || s[i] == '/' || s[i] == '-'
  }

  /** `^[A-Za-z0-9_][A-Za-z0-9._-]*$` */
  predicate ComponentGrammar(c: string) {
    c != [] && IsAlnum_(c[0])
    && forall i | 0 <= i < |c| :: IsAlnum_(c[i]) || c[i] == '.' || c[i] == '-'
  }

  /** Every component of the path satisfies the component grammar. */
  predicate Wellformed(p: string) {
    forall c | c in Split(p) :: ComponentGrammar(c)
  }

  lemma ComponentsAreOrdinary(cs: seq<string>)
    requires forall c | c in cs :: ComponentGrammar(c)
    ensures forall c | c in cs :: Ordinary(c) && NoSlash(c)
  {
  }

  lemma {:induction false} CharsFromComponents(s: string, i: nat)
    requires i < |s| && s[i] != '/'
    ensures exists c, j :: c in Split(s) && 0 <= j < |c| && c[j] == s[i]
  {
    var rest := Split(s[1..]);
    if i == 0 {
      assert ([s[0]] + rest[0])[0] == s[0];
      assert [s[0]] + rest[0] in Split(s);
    } else {
      CharsFromComponents(s[1..], i - 1);
      var c, j :| c in rest && 0 <= j < |c| && c[j] == s[1..][i - 1];
      var k :| 0 <= k < |rest| && rest[k] == c;
      if s[0] == '/' {
        assert ([""] + rest)[k + 1] == c;
      } else if k == 0 {
        assert ([s[0]] + rest[0])[j + 1] == c[j];
        assert [s[0]] + rest[0] in Split(s);
      } else {
        assert ([[s[0]] + rest[0]] + rest[1..])[k] == c;
      }
    }
  }

  /** The component grammar alone already implies the coarse whole-path grammar and that
      cleaning changes nothing: those two checks never reject anything more. */
  lemma WellformedIsClean(p: string)
    requires Wellformed(p)
    ensures PathGrammar(p) && Clean(p) == p && p != ""
  {
    var cs := Split(p);
    assert cs[0] in cs;
    ComponentsAreOrdinary(cs);
    assert p != "" by {
      assert Split("") == [""];
    }
    assert p[0] == cs[0][0];
    forall i | 0 <= i < |p| ensures IsAlnum_(p[i]) || p[i] == '.' || p[i] == '/' || p[i] == '-' {
      if p[i] != '/' {
        CharsFromComponents(p, i);
      }
    }
    CleanKeepsOrdinary([], cs, false);
    assert [] + cs == cs;
    JoinSplit(p);
  }

  /** Containment: cleaning `root/p` is `root`, itself cleaned, followed by `p`, whatever the
      root is; nothing in an accepted path climbs out of it. */
  lemma StaysBelowRoot(root: string, p: string)
    requires root != "" && Wellformed(p)
    ensures Clean(root + "/" + p) ==
            if Clean(root) == "/" then "/" + p
            else if Clean(root) == "." then p
            else Clean(root) + "/" + p
  {
    hide Join, Split, CleanAll, Wellformed, Render;
    var rooted := root[0] == '/';
    var kept := CleanAll([], Split(root), rooted);
    SplitComponents(root);
    KeptNonEmpty([], Split(root), rooted);
    CleanBelow(root, p, kept);
    assert (root + "/" + p)[0] == root[0] && root + "/" + p != "";
    JoinSplit(p);
    RenderBelow(kept, Split(p), rooted);
  }

  lemma RenderBelow(kept: seq<string>, cs: seq<string>, rooted: bool)
    requires cs != [] && forall c | c in kept :: c != "" && c != "." && NoSlash(c)
    ensures Render(kept + cs, rooted) ==
            if Render(kept, rooted) == "/" then "/" + Join(cs)
            else if Render(kept, rooted) == "." then Join(cs)
            else Render(kept, rooted) + "/" + Join(cs)
  {
    if kept == [] {
      assert kept + cs == cs;
    } else {
      JoinAppend(kept, cs);
      JoinKept(kept);
      hide Join;
      assert |kept + cs| > 0 && ("/" + Join(kept))[0] == '/' && "."[0] == '.';
      assert "/" + (Join(kept) + "/" + Join(cs)) == "/" + Join(kept) + "/" + Join(cs);
    }
  }

  lemma CleanBelow(root: string, p: string, kept: seq<string>)
    requires root != "" && Wellformed(p) && kept == CleanAll([], Split(root), root[0] == '/')
    ensures CleanAll([], Split(root + "/" + p), root[0] == '/') == kept + Split(p)
  {
    var cs := Split(p);
    ComponentsAreOrdinary(cs);
    SplitAppend(root, p);
    CleanAppend([], Split(root), cs, root[0] == '/');
    CleanKeepsOrdinary(kept, cs, root[0] == '/');
  }

  lemma {:induction false} KeptNonEmpty(kept: seq<string>, cs: seq<string>, rooted: bool)
    requires forall c | c in kept :: c != "" && c != "." && NoSlash(c)
    requires forall c | c in cs :: NoSlash(c)
    ensures forall c | c in CleanAll(kept, cs, rooted) :: c != "" && c != "." && NoSlash(c)
    decreases |cs|
  {
    if cs != [] {
      assert forall c | c in CleanStep(kept, cs[0], rooted) ::
               c in kept || (c == cs[0] && c != "" && c != "." && NoSlash(c));
      KeptNonEmpty(CleanStep(kept, cs[0], rooted), cs[1..], rooted);
    }
  }

  lemma JoinKept(kept: seq<string>)
    requires kept != [] && forall c | c in kept :: c != "" && c != "." && NoSlash(c)
    ensures Join(kept) != "/" && Join(kept) != "" && Join(kept) != "." && "/" + Join(kept) != "/"
  {
    assert kept[0] in kept && kept[0][0] != '/';
    assert Join(kept)[0] == kept[0][0];
    if |kept| > 1 {
      assert |Join(kept)| >= 2;
    }
  }

  /** What cleaning does away with: empty components, `.`, and a component with the `..` after it. */
  lemma CleanDrops(a: string, c: string)
    requires a != "" && NoSlash(c) && Ordinary(c)
    ensures Clean(a + "/") == Clean(a) && Clean(a + "/.") == Clean(a) && Clean(a + "/" + (c + "/..")) == Clean(a)
  {
    hide Split, CleanAll, Render;
    var rooted := a[0] == '/';
    var kept := CleanAll([], Split(a), rooted);
    CleanTail(a, "", rooted);
    CleanTail(a, ".", rooted);
    CleanTail(a, c + "/..", rooted);
    assert a + "/" + "" == a + "/" && a + "/" + "." == a + "/.";
    assert Split("") == [""] && Split(".") == ["."] && Split(c + "/..") == [c, ".."] by {
      SplitNoSlash("", "");
      SplitNoSlash(".", "");
      SplitNoSlash(c, "..");
      SplitNoSlash("..", "");
      assert c + "/" + ".." == c + "/..";
    }
    CleanTwo(kept, "", rooted);
    CleanTwo(kept, ".", rooted);
    assert [c, ".."][1..] == [".."];
    assert CleanAll(kept, [c, ".."], rooted) == CleanAll(kept + [c], [".."], rooted) by {
      CleanUnfold(kept, [c, ".."], rooted);
    }
    CleanTwo(kept + [c], "..", rooted);
    assert (kept + [c])[..|kept|] == kept;
  }

  lemma CleanUnfold(kept: seq<string>, cs: seq<string>, rooted: bool)
    requires cs != []
    ensures CleanAll(kept, cs, rooted) == CleanAll(CleanStep(kept, cs[0], rooted), cs[1..], rooted)
  {
  }

  lemma CleanTwo(kept: seq<string>, c: string, rooted: bool)
    ensures CleanAll(kept, [c], rooted) == CleanStep(kept, c, rooted)
  {
    assert [c][1..] == [];
    assert CleanAll(CleanStep(kept, c, rooted), [], rooted) == CleanStep(kept, c, rooted);
  }

  lemma CleanTail(a: string, b: string, rooted: bool)
    requires a != "" && rooted == (a[0] == '/')
    ensures Clean(a + "/" + b) == Render(CleanAll(CleanAll([], Split(a), rooted), Split(b), rooted), rooted)
    ensures Clean(a) == Render(CleanAll([], Split(a), rooted), rooted)
  {
    hide Split, CleanAll, Render;
    SplitAppend(a, b);
    CleanAppend([], Split(a), Split(b), rooted);
    assert (a + "/" + b)[0] == a[0];
  }

  // ---- extensions --------------------------------------------------------------------------------

  /** `path.Ext`: from the last dot of the last component. */
  function Ext(p: string): string {
    if p == "" || p[|p| - 1] == '/' then ""
    else if p[|p| - 1] == '.' then "."
    else
      var e := Ext(p[..|p| - 1]);
      if e == "" then "" else e + [p[|p| - 1]]
  }

  /** `strings.ToLower` on ASCII. */
  function ToLower(s: string): (r: string)
    ensures |r| == |s|
    ensures forall i | 0 <= i < |s| :: r[i] == if 'A' <= s[i] <= 'Z' then s[i] - 'A' + 'a' else s[i]
  {
    if s == "" then ""
    else [if 'A' <= s[0] <= 'Z' then s[0] - 'A' + 'a' else s[0]] + ToLower(s[1..])
  }

  /** The extension is the text from the last dot of the last component ... */
  lemma {:induction false} ExtIsAfterLastDot(a: string, b: string)
    requires forall i | 0 <= i < |b| :: b[i] != '.' && b[i] != '/'
    ensures Ext(a + "." + b) == "." + b
  {
    var s := a + "." + b;
    if b == "" {
      assert s[|s| - 1] == '.';
      assert "." + b == ".";
    } else {
      var c := b[..|b| - 1];
      ExtIsAfterLastDot(a, c);
      assert s[..|s| - 1] == a + "." + c;
      assert s[|s| - 1] == b[|b| - 1] && "." + c + [b[|b| - 1]] == "." + b;
    }
  }

  /** ... and nothing when that has no dot. */
  lemma {:induction false} NoDotNoExt(p: string)
    ensures Ext(p) == "" <==> forall i | 0 <= i < |p| && p[i] == '.' :: exists j :: i < j < |p| && p[j] == '/'
  {
    if p != "" {
      var n := |p| - 1;
      var q := p[..n];
      NoDotNoExt(q);
      if p[n] != '/' && p[n] != '.' {
        assert forall i | 0 <= i < n :: q[i] == p[i];
        assert forall i | 0 <= i < |p| && p[i] == '.' :: i < n;
        if forall i | 0 <= i < |p| && p[i] == '.' :: exists j :: i < j < |p| && p[j] == '/' {
          forall i | 0 <= i < n && q[i] == '.' ensures exists j :: i < j < n && q[j] == '/' {
            var j :| i < j < |p| && p[j] == '/';
            assert q[j] == '/';
          }
        }
        if forall i | 0 <= i < n && q[i] == '.' :: exists j :: i < j < n && q[j] == '/' {
          forall i | 0 <= i < |p| && p[i] == '.' ensures exists j :: i < j < |p| && p[j] == '/' {
            var j :| i < j < n && q[j] == '/';
            assert p[j] == '/';
          }
        }
      } else if p[n] == '/' {
        assert forall i | 0 <= i < |p| && p[i] == '.' :: i < n && p[n] == '/';
      } else {
        assert p[n] == '.' && n + 1 == |p|;
      }
    }
  }

  // ---- order --------------------------------------------------------------------------------------

  /** Go's `<` on strings. */
  predicate Less(a: string, b: string) {
    b != "" && (a == "" || a[0] < b[0] || (a[0] == b[0] && Less(a[1..], b[1..])))
  }

  lemma {:induction false} LessTotal(a: string, b: string)
    ensures a == b || Less(a, b) || Less(b, a)
    ensures !Less(a, a) && !(Less(a, b) && Less(b, a))
    decreases |a| + |b|
  {
    if a != "" && b != "" {
      LessTotal(a[1..], b[1..]);
      assert a == [a[0]] + a[1..] && b == [b[0]] + b[1..];
    }
    LessIrreflexive(a);
  }

  lemma {:induction false} LessIrreflexive(a: string)
    ensures !Less(a, a)
  {
    if a != "" {
      LessIrreflexive(a[1..]);
    }
  }

  lemma {:induction false} LessTransitive(a: string, b: string, c: string)
    requires Less(a, b) && Less(b, c)
    ensures Less(a, c)
  {
    if a != "" && a[0] == b[0] == c[0] {
      LessTransitive(a[1..], b[1..], c[1..]);
    }
  }

  /** Byte order: `a` is a proper beginning of `b`, or smaller at the first difference. */
  lemma {:induction false} LessMeans(a: string, b: string)
    ensures Less(a, b) <==>
              exists n :: 0 <= n <= |a| && n < |b| && a[..n] == b[..n] && (n == |a| || a[n] < b[n])
  {
    if a != "" && b != "" {
      LessMeans(a[1..], b[1..]);
      if n :| 0 <= n <= |a| && n < |b| && a[..n] == b[..n] && (n == |a| || a[n] < b[n]) {
        if n > 0 {
          assert a[0] == a[..n][0] == b[..n][0] == b[0];
          assert a[1..][..n - 1] == a[..n][1..] && b[1..][..n - 1] == b[..n][1..];
        }
      }
      if a[0] == b[0] && Less(a[1..], b[1..]) {
        var n :| 0 <= n <= |a| - 1 && n < |b| - 1 && a[1..][..n] == b[1..][..n]
                 && (n == |a| - 1 || a[1..][n] < b[1..][n]);
        assert a[..n + 1] == [a[0]] + a[1..][..n] && b[..n + 1] == [b[0]] + b[1..][..n];
      }
      if a[0] < b[0] {
        assert a[..0] == b[..0];
      }
    } else if a == "" && b != "" {
      assert a[..0] == b[..0];
    }
  }
}
