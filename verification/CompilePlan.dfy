/**
  The multi-file build recipes of compiled_multifile.go: which files reach the compiler,
  where, and in what order; and where a Java class ends up.
 */
module CompilePlan {
  import opened Paths
  import opened Sorting
  import FP = FilePolicy

  const JAIL_MOUNT := "/sandbox"
  const SRC_DIR := "/sandbox/src"
  const ARTIFACT := "/sandbox/bin"

  /** `jailSrc`. */
  function JailSrc(rel: string): string {
    SRC_DIR + "/" + rel
  }

  // ---- compile units ---------------------------------------------------------------------

  function UnitPaths(files: seq<string>, p: FP.Policy): seq<string> {
    if files == [] then []
    else
      var rest, last := UnitPaths(files[..|files| - 1], p), files[|files| - 1];
      if FP.IsUnit(last, p) then rest + [JailSrc(last)] else rest
  }

  function Itself(s: string): string {
    s
  }

  /** `sort.Strings`. */
  function SortStrings(xs: seq<string>): seq<string> {
    SortBy(Itself, xs)
  }

  /** How often each unit occurs depends only on which files there are. */
  lemma {:induction false} UnitsCounted(files: seq<string>, p: FP.Policy)
    ensures forall f :: multiset(UnitPaths(files, p))[JailSrc(f)] == if FP.IsUnit(f, p) then multiset(files)[f] else 0
    ensures forall u | u in UnitPaths(files, p) :: exists f :: f in files && FP.IsUnit(f, p) && u == JailSrc(f)
  {
    hide FP.IsUnit;
    if files != [] {
      var n := |files| - 1;
      UnitsCounted(files[..n], p);
      assert files == files[..n] + [files[n]];
      forall f, g | JailSrc(f) == JailSrc(g) ensures f == g {
        JailSrcInjective(f, g);
      }
    }
  }

  lemma JailSrcInjective(f: string, g: string)
    requires JailSrc(f) == JailSrc(g)
    ensures f == g
  {
    var k := |SRC_DIR| + 1;
    assert JailSrc(f)[k..] == f && JailSrc(g)[k..] == g;
  }

  lemma UnitsOrderFree(a: seq<string>, b: seq<string>, p: FP.Policy)
    requires multiset(a) == multiset(b)
    ensures multiset(UnitPaths(a, p)) == multiset(UnitPaths(b, p))
  {
    hide FP.IsUnit, JailSrc;
    UnitsCounted(a, p);
    UnitsCounted(b, p);
    var x, y := UnitPaths(a, p), UnitPaths(b, p);
    forall u ensures multiset(x)[u] == multiset(y)[u] {
      if u in x || u in y {
        assert exists f :: u == JailSrc(f);
      }
    }
  }

  /** `compileUnits`. */
  method CompileUnits(files: seq<string>, p: FP.Policy) returns (out: seq<string>)
    ensures out == SortStrings(UnitPaths(files, p))
  {
    hide FP.IsUnit;
    out := [];
    for i := 0 to |files|
      invariant out == UnitPaths(files[..i], p)
    {
      assert files[..i + 1][..i] == files[..i];
      if FP.IsUnit(files[i], p) {
        out := out + [JailSrc(files[i])];
      }
    }
    assert files[..|files|] == files;
    out := SortStrings(out);
  }

  // ---- the C and C++ command ------------------------------------------------------------------

  predicate HasPrefix(s: string, p: string) {
    |p| <= |s| && s[..|p|] == p
  }

  /** `subst` of one template token. */
  function Subst(tok: string): string {
    if tok == "" then ""
    else if HasPrefix(tok, "{out}") then ARTIFACT + Subst(tok[5..])
    else if HasPrefix(tok, "{dir}") then JAIL_MOUNT + Subst(tok[5..])
    else [tok[0]] + Subst(tok[1..])
  }

  function Flags(template: seq<string>): seq<string> {
    if template == [] then []
    else
      var rest, last := Flags(template[..|template| - 1]), template[|template| - 1];
      if last == "{src}" then rest else rest + [Subst(last)]
  }

  function CommandOf(template: seq<string>, link: seq<string>, files: seq<string>, p: FP.Policy): seq<string> {
    Flags(template) + ["-I" + SRC_DIR] + SortStrings(UnitPaths(files, p)) + link
  }

  /** The list of units: ascending, each submitted unit as often as it was submitted, below the
      source directory, and nothing else. */
  ghost predicate ListsUnits(units: seq<string>, files: seq<string>, p: FP.Policy) {
    && (forall i, j | 0 <= i < j < |units| :: units[i] == units[j] || Less(units[i], units[j]))
    && (forall f | f in files && FP.IsUnit(f, p) :: multiset(units)["/sandbox/src/" + f] == multiset(files)[f])
    && forall u | u in units :: exists f :: f in files && FP.IsUnit(f, p) && u == "/sandbox/src/" + f
  }

  /** What the flags of a template are: its tokens in order, the source slot left out. */
  lemma {:induction false} FlagsAppend(a: seq<string>, b: seq<string>)
    ensures Flags(a + b) == Flags(a) + Flags(b)
  {
    if b == [] {
      assert a + b == a;
    } else {
      var n := |b| - 1;
      assert (a + b)[..|a + b| - 1] == a + b[..n];
      FlagsAppend(a, b[..n]);
    }
  }

  lemma FlagText(tok: string)
    ensures Flags([tok]) == if tok == "{src}" then [] else [Subst(tok)]
  {
    assert [tok][..0] == [];
  }

  /** Substitution leaves text without braces alone ... */
  lemma {:induction false} SubstText(a: string, x: string)
    requires '{' !in a
    ensures Subst(a + x) == a + Subst(x)
  {
    if a == "" {
      assert a + x == x;
    } else {
      var s := a + x;
      assert s[1..] == a[1..] + x && s[0] == a[0] != '{';
      SubstText(a[1..], x);
      NoMark(s);
      hide HasPrefix;
      assert Subst(s) == [s[0]] + Subst(s[1..]);
      assert a == [a[0]] + a[1..];
    }
  }

  lemma NoMark(s: string)
    requires s != "" && s[0] != '{'
    ensures !HasPrefix(s, "{out}") && !HasPrefix(s, "{dir}")
  {
    assert |s| >= 5 ==> s[..5][0] == s[0];
    assert "{out}"[0] == "{dir}"[0] == '{';
  }

  /** ... and puts the two paths for their marks. */
  lemma SubstMarks(x: string)
    ensures Subst("") == "" && Subst("{out}" + x) == "/sandbox/bin" + Subst(x)
    ensures Subst("{dir}" + x) == "/sandbox" + Subst(x)
  {
    var o, d := "{out}" + x, "{dir}" + x;
    assert o[..5] == "{out}" && o[5..] == x && d[..5] == "{dir}" && d[5..] == x;
    assert d[..5][1] != "{out}"[1];
  }

  lemma UnitsAreListed(files: seq<string>, p: FP.Policy)
    ensures ListsUnits(SortStrings(UnitPaths(files, p)), files, p)
  {
    hide FP.IsUnit, SortBy, UnitPaths, Less;
    var found := UnitPaths(files, p);
    var units := SortStrings(found);
    SortAscends(Itself, found);
    UnitsCounted(files, p);
    assert SRC_DIR + "/" == "/sandbox/src/";
    forall f: string ensures JailSrc(f) == "/sandbox/src/" + f {
    }
    forall i, j | 0 <= i < j < |units| ensures units[i] == units[j] || Less(units[i], units[j]) {
      assert AtMost(Itself(units[i]), Itself(units[j]));
    }
    forall u | u in units ensures exists f :: f in files && FP.IsUnit(f, p) && u == "/sandbox/src/" + f {
      assert u in multiset(units);
      assert u in found;
      var f :| f in files && FP.IsUnit(f, p) && u == JailSrc(f);
    }
  }

  /** `compileArgv` of the C family: the flags, the include directory, then between that and the
      libraries exactly the units. */
  method CompileArgv(template: seq<string>, link: seq<string>, files: seq<string>, p: FP.Policy)
      returns (args: seq<string>)
    ensures args == CommandOf(template, link, files, p)
    ensures exists units :: args == Flags(template) + ["-I/sandbox/src"] + units + link && ListsUnits(units, files, p)
  {
    hide ListsUnits;
    UnitsAreListed(files, p);
    args := [];
    for i := 0 to |template|
      invariant args == Flags(template[..i])
    {
      assert template[..i + 1][..i] == template[..i];
      if template[i] == "{src}" {
        continue;
      }
      args := args + [Subst(template[i])];
    }
    assert template[..|template|] == template;
    args := args + ["-I" + SRC_DIR];
    assert "-I" + SRC_DIR == "-I/sandbox/src";
    var units := CompileUnits(files, p);
    args := args + units;
    args := args + link;
  }

  /** The command does not depend on the order of the files. */
  lemma CommandOrderFree(template: seq<string>, link: seq<string>, a: seq<string>, b: seq<string>, p: FP.Policy)
    requires multiset(a) == multiset(b)
    ensures CommandOf(template, link, a, p) == CommandOf(template, link, b, p)
  {
    hide UnitPaths, SortBy, Flags;
    UnitsOrderFree(a, b, p);
    SortOrderFree(Itself, UnitPaths(a, p), UnitPaths(b, p));
  }

  /** For distinct accepted files the units are listed once each; each is an absolute path below
      the source directory, and stays there after cleaning. */
  lemma UnitsOnceBelowSource(files: seq<string>, p: FP.Policy)
    requires forall f | f in files :: multiset(files)[f] == 1 && FP.PathOk(f, p)
    ensures var units := SortStrings(UnitPaths(files, p));
            && (forall f | f in files && FP.IsUnit(f, p) :: multiset(units)[JailSrc(f)] == 1)
            && forall u | u in units :: exists f :: f in files && FP.IsUnit(f, p) && u == JailSrc(f) && Clean(u) == u
  {
    hide FP.IsUnit, SortBy, UnitPaths;
    var found := UnitPaths(files, p);
    var units := SortStrings(found);
    SortAscends(Itself, found);
    UnitsCounted(files, p);
    forall u | u in units ensures exists f :: f in files && FP.IsUnit(f, p) && u == JailSrc(f) && Clean(u) == u {
      assert u in multiset(units);
      assert u in found;
      var f :| f in files && FP.IsUnit(f, p) && u == JailSrc(f);
      SourceDirIsClean();
      StaysBelowRoot(SRC_DIR, f);
    }
  }

  lemma SourceDirIsClean()
    ensures Clean(SRC_DIR) == SRC_DIR
  {
    hide Split;
    SplitNoSlash("src", "");
    SplitNoSlash("sandbox", "src");
    SplitNoSlash("", "sandbox/src");
    assert "sandbox" + "/" + "src" == "sandbox/src" && "" + "/" + "sandbox/src" == SRC_DIR;
    var rest := ["sandbox", "src"];
    assert Split(SRC_DIR) == [""] + rest && ([""] + rest)[1..] == rest;
    CleanKeepsOrdinary([], rest, true);
    assert [] + rest == rest && rest[1..] == ["src"];
    assert CleanAll([], [""] + rest, true) == CleanAll([], rest, true);
    hide CleanAll;
    assert Join(rest) == "sandbox" + "/" + "src";
  }

  // ---- the Java artifact -------------------------------------------------------------------------

  function DotsToSlashes(s: string): (r: string)
    ensures |r| == |s| && forall i | 0 <= i < |s| :: r[i] == if s[i] == '.' then '/' else s[i]
  {
    if s == "" then "" else [if s[0] == '.' then '/' else s[0]] + DotsToSlashes(s[1..])
  }

  const CLASSES := "classes"
  const CLASS_SUFFIX := ".class"

  /** `artifactRel`: `filepath.Join("classes", …)`, which cleans. */
  function ArtifactRel(entry: string): string {
    Clean(CLASSES + "/" + (DotsToSlashes(entry) + CLASS_SUFFIX))
  }

  predicate StartsOk(c: string) {
    c != "" && c[0] != '.'
  }

  lemma {:induction false} ClassComponents(s: string, start: bool)
    requires FP.JavaClass(s, start)
    ensures var cs := Split(DotsToSlashes(s) + CLASS_SUFFIX);
            (forall i | 1 <= i < |cs| :: StartsOk(cs[i])) && (start ==> StartsOk(cs[0]))
    decreases |s|
  {
    hide Split;
    if s == "" {
      assert "" + CLASS_SUFFIX == CLASS_SUFFIX;
      SplitNoSlash(CLASS_SUFFIX, "");
    } else {
      var rest := DotsToSlashes(s[1..]) + CLASS_SUFFIX;
      var c := if s[0] == '.' then '/' else s[0];
      assert DotsToSlashes(s) + CLASS_SUFFIX == [c] + rest;
      SplitFirst(c, rest);
      ClassComponents(s[1..], !start && s[0] == '.');
      hide DotsToSlashes, FP.JavaClass;
    }
  }

  /** The artifact of a valid class is its dotted name as a path below `classes/`. */
  lemma ArtifactBelowClasses(entry: string)
    requires FP.JavaClass(entry)
    ensures ArtifactRel(entry) == CLASSES + "/" + (DotsToSlashes(entry) + CLASS_SUFFIX)
  {
    hide Split, DotsToSlashes;
    var rel := DotsToSlashes(entry) + CLASS_SUFFIX;
    ClassComponents(entry, true);
    var cs := [CLASSES] + Split(rel);
    SplitNoSlash(CLASSES, rel);
    forall c | c in cs ensures Ordinary(c) {
      if c in Split(rel) {
        var i :| 0 <= i < |Split(rel)| && Split(rel)[i] == c;
        assert StartsOk(Split(rel)[i]);
      }
    }
    CleanKeepsOrdinary([], cs, false);
    assert [] + cs == cs;
    JoinSplit(rel);
    assert cs[1..] == Split(rel);
  }

  lemma DotsInjective(a: string, b: string)
    requires DotsToSlashes(a) == DotsToSlashes(b) && NoSlash(a) && NoSlash(b)
    ensures a == b
  {
    hide DotsToSlashes;
    assert |a| == |DotsToSlashes(a)| == |b|;
    forall i | 0 <= i < |a| ensures a[i] == b[i] {
      assert DotsToSlashes(a)[i] == DotsToSlashes(b)[i];
    }
  }

  lemma {:induction false} ClassHasNoSlash(s: string, start: bool)
    requires FP.JavaClass(s, start)
    ensures NoSlash(s)
    decreases |s|
  {
    if s != "" {
      ClassHasNoSlash(s[1..], !start && s[0] == '.');
      assert s == [s[0]] + s[1..];
    }
  }

  /** Two valid classes never share an artifact. */
  lemma ArtifactInjective(a: string, b: string)
    requires FP.JavaClass(a) && FP.JavaClass(b) && ArtifactRel(a) == ArtifactRel(b)
    ensures a == b
  {
    ArtifactBelowClasses(a);
    ArtifactBelowClasses(b);
    var k := |CLASSES| + 1;
    var x, y := DotsToSlashes(a) + CLASS_SUFFIX, DotsToSlashes(b) + CLASS_SUFFIX;
    assert (CLASSES + "/" + x)[k..] == x && (CLASSES + "/" + y)[k..] == y;
    assert x[..|x| - 6] == DotsToSlashes(a) && y[..|y| - 6] == DotsToSlashes(b);
    ClassHasNoSlash(a, true);
    ClassHasNoSlash(b, true);
    DotsInjective(a, b);
  }
}
