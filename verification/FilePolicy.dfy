/**
  Checking a multi-file submission: filepolicy.go, the re-check of materialize.go, and the
  part of `normalize` (executor.go) that rewrites a request.
 */
module FilePolicy {
  import opened Options
  import opened Paths
  import opened Sorting

  datatype File = File(path: string, content: string)

  /** A cap of 0 or less is no cap. */
  datatype Policy = Policy(
    maxFiles: int, maxFileBytes: int, maxFilesBytes: int, maxPathBytes: int, maxPathDepth: int,
    allowedExts: set<string>, compileExts: set<string>,
    forbiddenNames: set<string>, forbiddenComponents: set<string>,
    defaultEntry: string, entryIsClass: bool)

  datatype Error =
    | NoFiles | TooManyFiles | FileTooLarge | FilesTooLarge | InvalidPath | ForbiddenPath | ForbiddenFile
    | ForbiddenExtension | DuplicatePath | NoCompileUnit | InvalidEntrypoint | MissingEntrypoint
    | BothSourceAndFiles | NoProgram | FileIsDirectory

  // ---- one path ---------------------------------------------------------------------------

  predicate Within(n: nat, cap: int) {
    cap > 0 ==> n <= cap
  }

  /** The first component that breaks a rule, in order. */
  function BadComponent(cs: seq<string>, p: Policy): Option<Error> {
    if cs == [] then None
    else if cs[0] == "" || !ComponentGrammar(cs[0]) then Some(InvalidPath)
    else if cs[0] in p.forbiddenComponents then Some(ForbiddenPath)
    else BadComponent(cs[1..], p)
  }

  /** `validatePath`. */
  function ValidatePath(raw: string, p: Policy): Result<string, Error> {
    if raw == "" then Err(InvalidPath)
    else if !Within(|raw|, p.maxPathBytes) then Err(InvalidPath)
    else if !PathGrammar(raw) then Err(InvalidPath)
    else
      var clean := Clean(raw);
      if clean != raw then Err(InvalidPath)
      else
        var comps := Split(clean);
        if !Within(|comps|, p.maxPathDepth) then Err(InvalidPath)
        else
          match BadComponent(comps, p)
          case Some(e) => Err(e)
          case None =>
            var base := comps[|comps| - 1];
            if base in p.forbiddenNames then Err(ForbiddenFile)
            else if ToLower(Ext(base)) !in p.allowedExts then Err(ForbiddenExtension)
            else Ok(clean)
  }

  /** What an acceptable path is, said without order or cleaning. */
  predicate PathOk(raw: string, p: Policy) {
    var comps := Split(raw);
    && Wellformed(raw)
    && Within(|raw|, p.maxPathBytes) && Within(|comps|, p.maxPathDepth)
    && (forall c | c in comps :: c !in p.forbiddenComponents)
    && comps[|comps| - 1] !in p.forbiddenNames
    && ToLower(Ext(comps[|comps| - 1])) in p.allowedExts
  }

  lemma {:induction false} BadComponentExact(cs: seq<string>, p: Policy)
    ensures BadComponent(cs, p).None? <==> forall c | c in cs :: ComponentGrammar(c) && c !in p.forbiddenComponents
  {
    if cs != [] {
      BadComponentExact(cs[1..], p);
      assert cs == [cs[0]] + cs[1..];
    }
  }

  /** A path is accepted exactly when it is acceptable, and comes back unchanged. */
  lemma ValidatePathExact(raw: string, p: Policy)
    ensures ValidatePath(raw, p).Ok? <==> PathOk(raw, p)
    ensures PathOk(raw, p) ==> ValidatePath(raw, p) == Ok(raw)
  {
    hide PathGrammar, Clean, Ext, ToLower, Split, ComponentGrammar;
    BadComponentExact(Split(raw), p);
    if Wellformed(raw) {
      WellformedIsClean(raw);
    }
  }

  /** An accepted path stays below any root, also after cleaning, and its components give
      it back. */
  lemma AcceptedStaysBelow(raw: string, p: Policy, root: string)
    requires ValidatePath(raw, p).Ok? && root != "" && Clean(root) != "/" && Clean(root) != "."
    ensures Clean(root + "/" + raw) == Clean(root) + "/" + raw
    ensures Clean(raw) == raw && Join(Split(raw)) == raw && raw[0] != '/'
  {
    ValidatePathExact(raw, p);
    WellformedIsClean(raw);
    StaysBelowRoot(root, raw);
    JoinSplit(raw);
  }

  // ---- the whole list ------------------------------------------------------------------------

  function Size(files: seq<File>): nat {
    if files == [] then 0 else |files[0].content| + Size(files[1..])
  }

  function PathsOf(files: seq<File>): seq<string> {
    if files == [] then [] else [files[0].path] + PathsOf(files[1..])
  }

  predicate IsUnit(path: string, p: Policy) {
    ToLower(Ext(path)) in p.compileExts
  }

  /** The loop of `validatePaths`: the first file that breaks a rule, given what came before. */
  function Scan(files: seq<File>, p: Policy, total: nat, seen: set<string>): Option<Error> {
    if files == [] then None
    else
      var f := files[0];
      if !Within(|f.content|, p.maxFileBytes) then Some(FileTooLarge)
      else if !Within(total + |f.content|, p.maxFilesBytes) then Some(FilesTooLarge)
      else
        match ValidatePath(f.path, p)
        case Err(e) => Some(e)
        case Ok(clean) =>
          if clean in seen then Some(DuplicatePath)
          else Scan(files[1..], p, total + |f.content|, seen + {clean})
  }

  function HasUnit(files: seq<File>, p: Policy): bool {
    files != [] && (IsUnit(files[0].path, p) || HasUnit(files[1..], p))
  }

  function Verdict(files: seq<File>, p: Policy): Result<seq<File>, Error> {
    if files == [] then Err(NoFiles)
    else if !Within(|files|, p.maxFiles) then Err(TooManyFiles)
    else
      match Scan(files, p, 0, {})
      case Some(e) => Err(e)
      case None =>
        if p.compileExts != {} && !HasUnit(files, p) then Err(NoCompileUnit)
        else Ok(Sorted(files))
  }

  /** What an acceptable submission is: every rule, none of them about order. */
  ghost predicate Acceptable(files: seq<File>, p: Policy) {
    && files != [] && Within(|files|, p.maxFiles)
    && (forall f | f in files :: Within(|f.content|, p.maxFileBytes) && PathOk(f.path, p))
    && Within(Size(files), p.maxFilesBytes)
    && DistinctPaths(files)
    && (p.compileExts != {} ==> exists f :: f in files && IsUnit(f.path, p))
  }

  ghost predicate DistinctPaths(files: seq<File>) {
    forall i, j | 0 <= i < j < |files| :: files[i].path != files[j].path
  }

  // ---- sorting ----------------------------------------------------------------------------------

  function PathOf(f: File): string {
    f.path
  }

  ghost predicate IsSorted(files: seq<File>) {
    Ascending(PathOf, files)
  }

  /** `sort.Slice` by path. */
  function Sorted(files: seq<File>): seq<File> {
    SortBy(PathOf, files)
  }

  lemma SortedSorts(files: seq<File>)
    ensures IsSorted(Sorted(files)) && multiset(Sorted(files)) == multiset(files) && |Sorted(files)| == |files|
  {
    SortAscends(PathOf, files);
  }

  /** Distinctness and membership in terms of the multiset of files. */
  lemma DistinctAsMultiset(files: seq<File>)
    ensures DistinctPaths(files) <==>
              && (forall f | f in multiset(files) :: multiset(files)[f] == 1)
              && forall f, g | f in multiset(files) && g in multiset(files) && f.path == g.path :: f == g
  {
    if DistinctPaths(files) {
      forall f | f in multiset(files) ensures multiset(files)[f] == 1 {
        OnceIfDistinct(files, f);
      }
    } else {
      var i, j :| 0 <= i < j < |files| && files[i].path == files[j].path;
      if files[i] == files[j] {
        TwiceInMultiset(files, i, j);
      }
      assert files[i] in multiset(files) && files[j] in multiset(files);
    }
  }

  lemma OnceIfDistinct(files: seq<File>, f: File)
    requires DistinctPaths(files) && f in files
    ensures multiset(files)[f] == 1
  {
    var i :| 0 <= i < |files| && files[i] == f;
    assert files == files[..i] + [f] + files[i + 1..];
    assert f !in files[..i] && f !in files[i + 1..];
    assert multiset(files) == multiset(files[..i]) + multiset([f]) + multiset(files[i + 1..]);
  }

  lemma TwiceInMultiset(files: seq<File>, i: nat, j: nat)
    requires i < j < |files| && files[i] == files[j]
    ensures multiset(files)[files[i]] >= 2
  {
    assert files == files[..j] + [files[j]] + files[j + 1..];
    assert multiset(files) == multiset(files[..j]) + multiset([files[j]]) + multiset(files[j + 1..]);
    assert files[i] in files[..j];
  }

  lemma PathsTell(files: seq<File>)
    requires DistinctPaths(files)
    ensures Telling(PathOf, files)
  {
    DistinctAsMultiset(files);
    forall x, y | x in files && y in files && PathOf(x) == PathOf(y) ensures x == y {
      assert x in multiset(files) && y in multiset(files);
    }
  }

  /** Two sorted lists of the same files, with distinct paths, are the same list. */
  lemma SortedUnique(a: seq<File>, b: seq<File>)
    requires multiset(a) == multiset(b) && IsSorted(a) && IsSorted(b) && DistinctPaths(a)
    ensures a == b
  {
    PathsTell(a);
    AscendingUnique(PathOf, a, b);
  }

  lemma {:induction false} SizeOfPermutation(a: seq<File>, b: seq<File>)
    requires multiset(a) == multiset(b)
    ensures Size(a) == Size(b)
    decreases |a|
  {
    if a == [] {
      assert |multiset(b)| == 0;
    } else {
      assert a[0] in multiset(b);
      var j :| 0 <= j < |b| && b[j] == a[0];
      DropSame(a, b, j);
      SizeOfPermutation(a[1..], b[..j] + b[j + 1..]);
      SizeRemove(b, j);
    }
  }

  lemma DropSame(a: seq<File>, b: seq<File>, j: nat)
    requires multiset(a) == multiset(b) && a != [] && j < |b| && b[j] == a[0]
    ensures multiset(a[1..]) == multiset(b[..j] + b[j + 1..])
  {
    assert a == [a[0]] + a[1..];
    assert b == b[..j] + ([b[j]] + b[j + 1..]);
    assert multiset(a[1..]) == multiset(a) - multiset{a[0]};
    assert multiset(b[..j] + b[j + 1..]) == multiset(b) - multiset{a[0]};
  }

  lemma {:induction false} SizeRemove(b: seq<File>, j: nat)
    requires j < |b|
    ensures Size(b) == |b[j].content| + Size(b[..j] + b[j + 1..])
  {
    var rest := b[..j] + b[j + 1..];
    if j == 0 {
      assert rest == b[1..];
    } else {
      SizeRemove(b[1..], j - 1);
      assert rest[1..] == b[1..][..j - 1] + b[1..][j..];
    }
  }

  // ---- exactness -----------------------------------------------------------------------------------

  ghost predicate ScanOk(files: seq<File>, p: Policy, total: nat, seen: set<string>) {
    && (forall f | f in files :: Within(|f.content|, p.maxFileBytes) && PathOk(f.path, p) && f.path !in seen)
    && (files != [] ==> Within(total + Size(files), p.maxFilesBytes))
    && DistinctPaths(files)
  }

  lemma {:induction false} ScanExact(files: seq<File>, p: Policy, total: nat, seen: set<string>)
    ensures Scan(files, p, total, seen).None? <==> ScanOk(files, p, total, seen)
    decreases |files|
  {
    hide PathOk, ValidatePath;
    if files != [] {
      var f, rest := files[0], files[1..];
      assert files == [f] + rest;
      ValidatePathExact(f.path, p);
      ScanExact(rest, p, total + |f.content|, seen + {f.path});
      ScanOkStep(files, p, total, seen);
    }
  }

  lemma ScanOkStep(files: seq<File>, p: Policy, total: nat, seen: set<string>)
    requires files != []
    ensures var f, rest := files[0], files[1..];
            ScanOk(files, p, total, seen) <==>
              && Within(|f.content|, p.maxFileBytes) && PathOk(f.path, p) && f.path !in seen
              && Within(total + |f.content|, p.maxFilesBytes)
              && ScanOk(rest, p, total + |f.content|, seen + {f.path})
  {
    hide PathOk, DistinctPaths, Within;
    var f, rest := files[0], files[1..];
    assert files == [f] + rest;
    assert forall g | g in files :: g == f || g in rest;
    DistinctCons(f, rest);
    WithinLess(total + |f.content|, total + Size(files), p.maxFilesBytes);
  }

  lemma WithinLess(n: nat, m: nat, cap: int)
    requires n <= m
    ensures Within(m, cap) ==> Within(n, cap)
  {
  }

  lemma DistinctCons(f: File, rest: seq<File>)
    ensures DistinctPaths([f] + rest) <==> DistinctPaths(rest) && forall g | g in rest :: g.path != f.path
  {
    var files := [f] + rest;
    assert forall i | 0 <= i < |rest| :: rest[i] == files[i + 1];
    if DistinctPaths(files) {
      forall g | g in rest ensures g.path != f.path {
        var i :| 0 <= i < |rest| && rest[i] == g;
        assert files[0] == f && files[i + 1] == g;
      }
    }
    if DistinctPaths(rest) && forall g | g in rest :: g.path != f.path {
      forall i, j | 0 <= i < j < |files| ensures files[i].path != files[j].path {
        assert files[j] == rest[j - 1] && rest[j - 1] in rest;
        if i > 0 {
          assert files[i] == rest[i - 1];
        }
      }
    }
  }

  lemma {:induction false} HasUnitExact(files: seq<File>, p: Policy)
    ensures HasUnit(files, p) <==> exists f :: f in files && IsUnit(f.path, p)
  {
    hide IsUnit;
    if files != [] {
      HasUnitExact(files[1..], p);
      assert files == [files[0]] + files[1..];
      assert files[0] in files;
    }
  }

  /** A submission is accepted exactly when it is acceptable. */
  lemma AcceptedIffAcceptable(files: seq<File>, p: Policy)
    ensures Verdict(files, p).Ok? <==> Acceptable(files, p)
    ensures Verdict(files, p).Ok? ==> Verdict(files, p).value == Sorted(files)
  {
    hide PathOk, IsUnit, Sorted;
    ScanExact(files, p, 0, {});
    HasUnitExact(files, p);
  }

  lemma AcceptableIsOrderFree(a: seq<File>, b: seq<File>, p: Policy)
    requires multiset(a) == multiset(b) && Acceptable(a, p)
    ensures Acceptable(b, p)
  {
    hide PathOk, IsUnit;
    assert |a| == |multiset(a)| == |multiset(b)| == |b|;
    forall f | f in b ensures f in a {
      assert f in multiset(b);
    }
    SizeOfPermutation(a, b);
    DistinctAsMultiset(a);
    DistinctAsMultiset(b);
    if p.compileExts != {} {
      var f :| f in a && IsUnit(f.path, p);
      assert f in multiset(a);
      assert f in b;
    }
  }

  /** The order in which the files are submitted changes neither the verdict nor the result. */
  lemma OrderFree(a: seq<File>, b: seq<File>, p: Policy)
    requires multiset(a) == multiset(b)
    ensures Verdict(a, p).Ok? <==> Verdict(b, p).Ok?
    ensures Verdict(a, p).Ok? ==> Verdict(a, p) == Verdict(b, p)
  {
    hide Acceptable, Verdict;
    AcceptedIffAcceptable(a, p);
    AcceptedIffAcceptable(b, p);
    if Acceptable(a, p) {
      AcceptableIsOrderFree(a, b, p);
      SortedIsOrderFree(a, b, p);
    }
    if Acceptable(b, p) {
      AcceptableIsOrderFree(b, a, p);
    }
  }

  lemma SortedIsOrderFree(a: seq<File>, b: seq<File>, p: Policy)
    requires multiset(a) == multiset(b) && Acceptable(a, p)
    ensures Sorted(a) == Sorted(b) && Acceptable(Sorted(a), p)
  {
    hide PathOk, IsUnit, Sorted;
    SortedSorts(a);
    SortedSorts(b);
    AcceptableIsOrderFree(a, Sorted(a), p);
    SortedUnique(Sorted(a), Sorted(b));
  }

  /** The accepted list is canonical: the one list of those files in strict path order. */
  lemma ResultIsCanonical(files: seq<File>, p: Policy, other: seq<File>)
    requires Verdict(files, p).Ok?
    ensures var out := Verdict(files, p).value;
            && multiset(out) == multiset(files) && IsSorted(out) && DistinctPaths(out)
            && (multiset(other) == multiset(files) && IsSorted(other) ==> other == out)
  {
    hide PathOk, IsUnit, Sorted;
    AcceptedIffAcceptable(files, p);
    SortedSorts(files);
    SortedIsOrderFree(files, files, p);
    if multiset(other) == multiset(files) && IsSorted(other) {
      SortedUnique(Sorted(files), other);
    }
  }

  /** The policy of the second check: the same lists, no numeric cap. */
  function Uncapped(p: Policy): Policy {
    p.(maxFiles := 0, maxFileBytes := 0, maxFilesBytes := 0, maxPathBytes := 0, maxPathDepth := 0)
  }

  /** What the service accepted, the check before writing accepts too, without the caps,
      and leaves as it is; and checking an accepted list again changes nothing. */
  lemma RecheckAccepts(files: seq<File>, p: Policy)
    requires Verdict(files, p).Ok?
    ensures var out := Verdict(files, p).value;
            Verdict(out, Uncapped(p)) == Ok(out) && Verdict(out, p) == Ok(out)
  {
    hide Sorted, Verdict;
    var out := Verdict(files, p).value;
    AcceptedIffAcceptable(files, p);
    SortedIsOrderFree(files, files, p);
    UncappedAccepts(out, p);
    AcceptedIffAcceptable(out, p);
    AcceptedIffAcceptable(out, Uncapped(p));
    SortedSorts(files);
    SortedSorts(out);
    SortedUnique(out, Sorted(out));
  }

  lemma UncappedAccepts(files: seq<File>, p: Policy)
    requires Acceptable(files, p)
    ensures Acceptable(files, Uncapped(p))
  {
    hide Size;
    forall f | f in files ensures PathOk(f.path, Uncapped(p)) {
      hide Split, Ext, ToLower, Wellformed;
      assert PathOk(f.path, p);
    }
    if p.compileExts != {} {
      var f :| f in files && IsUnit(f.path, p);
      assert IsUnit(f.path, Uncapped(p));
    }
  }

  /** The two policies differ in their caps at most. */
  ghost predicate SameLists(p: Policy, q: Policy) {
    && p.allowedExts == q.allowedExts && p.compileExts == q.compileExts
    && p.forbiddenNames == q.forbiddenNames && p.forbiddenComponents == q.forbiddenComponents
    && p.defaultEntry == q.defaultEntry && p.entryIsClass == q.entryIsClass
  }

  /** Acceptable without caps is acceptable under some caps, and the lists stay. */
  lemma UncappedIsSomeCaps(files: seq<File>, p: Policy)
    ensures SameLists(Uncapped(p), p)
    ensures Acceptable(files, Uncapped(p)) <==> exists q :: SameLists(q, p) && Acceptable(files, q)
  {
    hide Acceptable;
    forall q | SameLists(q, p) && Acceptable(files, q) ensures Acceptable(files, Uncapped(p)) {
      UncappedAccepts(files, q);
      assert Uncapped(q) == Uncapped(p);
    }
  }

  // ---- the method -------------------------------------------------------------------------------------

  /** `validatePaths`. */
  method ValidatePaths(files: seq<File>, p: Policy) returns (r: Result<seq<File>, Error>, seen: set<string>)
    ensures r == Verdict(files, p)
    ensures r.Ok? ==> seen == set f | f in files :: f.path
  {
    hide ValidatePath, IsUnit, Sorted;
    seen := {};
    if |files| == 0 {
      return Err(NoFiles), seen;
    }
    if p.maxFiles > 0 && |files| > p.maxFiles {
      return Err(TooManyFiles), seen;
    }
    var total: nat := 0;
    var hasUnit := p.compileExts == {};
    for i := 0 to |files|
      invariant Scan(files, p, 0, {}) == Scan(files[i..], p, total, seen)
      invariant seen == set f | f in files[..i] :: f.path
      invariant p.compileExts == {} ==> hasUnit
      invariant p.compileExts != {} ==> HasUnit(files, p) == (hasUnit || HasUnit(files[i..], p))
    {
      var f := files[i];
      assert files[i..][0] == f && files[i..][1..] == files[i + 1..];
      assert files[..i + 1] == files[..i] + [f];
      if p.maxFileBytes > 0 && |f.content| > p.maxFileBytes {
        return Err(FileTooLarge), seen;
      }
      if p.maxFilesBytes > 0 && total + |f.content| > p.maxFilesBytes {
        return Err(FilesTooLarge), seen;
      }
      match ValidatePath(f.path, p) {
        case Err(e) => return Err(e), seen;
        case Ok(clean) =>
          if clean in seen {
            return Err(DuplicatePath), seen;
          }
          CleanIsPath(f.path, p);
          total := total + |f.content|;
          seen := seen + {clean};
          if IsUnit(clean, p) {
            hasUnit := true;
          }
      }
    }
    assert files[..|files|] == files && files[|files|..] == [];
    if !hasUnit {
      return Err(NoCompileUnit), seen;
    }
    return Ok(Sorted(files)), seen;
  }

  lemma CleanIsPath(raw: string, p: Policy)
    ensures ValidatePath(raw, p).Ok? ==> ValidatePath(raw, p).value == raw
  {
    hide Clean, PathGrammar, Split;
  }

  // ---- entrypoints and requests ----------------------------------------------------------------------------

  predicate JavaStart(c: char) { 'A' <= c <= 'Z' || 'a' <= c <= 'z' || c == '_' || c == '$' }

  predicate JavaPart(c: char) { JavaStart(c) || '0' <= c <= '9' }

  /** `javaClassRe`, read left to right: `start` says a segment must begin here. */
  predicate JavaClass(s: string, start: bool := true)
    decreases |s|
  {
    if s == "" then !start
    else if start then JavaStart(s[0]) && JavaClass(s[1..], false)
    else if s[0] == '.' then JavaClass(s[1..], true)
    else JavaPart(s[0]) && JavaClass(s[1..], false)
  }

  /** `resolveEntrypoint`. */
  function ResolveEntrypoint(entry: string, seen: set<string>, p: Policy): Result<string, Error> {
    var e := if entry == "" then p.defaultEntry else entry;
    if p.entryIsClass then
      if JavaClass(e) then Ok(e) else Err(InvalidEntrypoint)
    else
      match ValidatePath(e, p)
      case Err(_) => Err(InvalidEntrypoint)
      case Ok(clean) => if clean in seen then Ok(clean) else Err(MissingEntrypoint)
  }

  datatype Request = Request(source: string, files: seq<File>, entry: string)

  function EntryAsked(entry: string, p: Policy): string {
    if entry == "" then p.defaultEntry else entry
  }

  /** The entrypoint asked for can be run: a class name, or one of the submitted files. */
  ghost predicate Runnable(entry: string, files: seq<File>, p: Policy) {
    var e := EntryAsked(entry, p);
    if p.entryIsClass then JavaClass(e) else exists f :: f in files && f.path == e
  }

  /** A request the service takes: exactly one kind of program, and an acceptable list of files
      with something to run, unless the tests are found by their framework. */
  ghost predicate Normalizable(req: Request, p: Policy, tests: bool) {
    && (req.source != "" <==> req.files == [])
    && (req.files != [] ==> Acceptable(req.files, p) && (tests || Runnable(req.entry, req.files, p)))
  }

  /** What it becomes: a single source untouched; a list of files in its one sorted arrangement,
      with the entrypoint that will run, or none for tests. */
  ghost predicate Normalized(req: Request, out: Request, p: Policy, tests: bool) {
    && out.source == req.source
    && (req.files == [] ==> out == req)
    && (req.files != [] ==>
          && multiset(out.files) == multiset(req.files) && IsSorted(out.files) && DistinctPaths(out.files)
          && out.entry == if tests then "" else EntryAsked(req.entry, p))
  }

  /** A request is taken exactly when it is normalizable, and becomes its normal form; the two
      ways of not saying what to run have errors of their own. */
  lemma NormalizeMeans(req: Request, p: Policy, tests: bool)
    ensures var r := NormalizeSpec(req, p, tests);
            && (r.Ok? <==> Normalizable(req, p, tests))
            && (r.Ok? ==> Normalized(req, r.value, p, tests))
            && (r == Err(BothSourceAndFiles) <==> req.source != "" && req.files != [])
            && (r == Err(NoProgram) <==> req.source == "" && req.files == [])
  {
    hide Acceptable, Verdict, ValidatePath, JavaClass, PathOk, Sorted;
    if req.source == "" && req.files != [] {
      AcceptedIffAcceptable(req.files, p);
      VerdictErrors(req.files, p);
      if Verdict(req.files, p).Ok? {
        ResultIsCanonical(req.files, p, req.files);
        if !tests {
          EntryResolves(req.entry, req.files, p);
        }
      }
    }
  }

  lemma VerdictErrors(files: seq<File>, p: Policy)
    ensures Verdict(files, p) != Err(BothSourceAndFiles) && Verdict(files, p) != Err(NoProgram)
  {
    hide ValidatePath, IsUnit, Sorted;
    ScanErrors(files, p, 0, {});
  }

  lemma {:induction false} ScanErrors(files: seq<File>, p: Policy, total: nat, seen: set<string>)
    ensures Scan(files, p, total, seen) != Some(BothSourceAndFiles) && Scan(files, p, total, seen) != Some(NoProgram)
    decreases |files|
  {
    if files != [] {
      ScanErrors(files[1..], p, total + |files[0].content|, seen + {files[0].path});
      PathErrors(files[0].path, p);
      CleanIsPath(files[0].path, p);
    }
  }

  lemma PathErrors(raw: string, p: Policy)
    ensures ValidatePath(raw, p) != Err(BothSourceAndFiles) && ValidatePath(raw, p) != Err(NoProgram)
  {
    hide PathGrammar, Clean, Split, Ext, ToLower;
    ComponentErrors(Split(raw), p);
  }

  lemma {:induction false} ComponentErrors(cs: seq<string>, p: Policy)
    ensures BadComponent(cs, p) != Some(BothSourceAndFiles) && BadComponent(cs, p) != Some(NoProgram)
  {
    if cs != [] {
      ComponentErrors(cs[1..], p);
    }
  }

  lemma EntryResolves(entry: string, files: seq<File>, p: Policy)
    requires Acceptable(files, p)
    ensures var r := ResolveEntrypoint(entry, set f | f in files :: f.path, p);
            && (r.Ok? <==> Runnable(entry, files, p)) && (r.Ok? ==> r.value == EntryAsked(entry, p))
            && r != Err(BothSourceAndFiles) && r != Err(NoProgram)
  {
    var e := EntryAsked(entry, p);
    ValidatePathExact(e, p);
    hide PathOk, ValidatePath, JavaClass;
    if f :| f in files && f.path == e {
      assert PathOk(f.path, p);
    }
  }

  /** `normalize`, for a mode that has an entrypoint (`tests` false) or discovers its tests. */
  method Normalize(req: Request, p: Policy, tests: bool) returns (r: Result<Request, Error>)
    ensures r.Ok? <==> Normalizable(req, p, tests)
    ensures r.Ok? ==> Normalized(req, r.value, p, tests)
    ensures r == Err(BothSourceAndFiles) <==> req.source != "" && req.files != []
    ensures r == Err(NoProgram) <==> req.source == "" && req.files == []
    ensures r == NormalizeSpec(req, p, tests)
  {
    hide ValidatePath, Verdict, Normalizable, Normalized;
    NormalizeMeans(req, p, tests);
    var hasSource := req.source != "";
    var hasFiles := |req.files| > 0;
    if hasSource && hasFiles {
      return Err(BothSourceAndFiles);
    }
    if !hasSource && !hasFiles {
      return Err(NoProgram);
    }
    if hasSource {
      return Ok(req);
    }
    var files, seen := ValidatePaths(req.files, p);
    if files.Err? {
      return Err(files.error);
    }
    if tests {
      return Ok(req.(files := files.value, entry := ""));
    }
    match ResolveEntrypoint(req.entry, seen, p) {
      case Err(e) => return Err(e);
      case Ok(entry) => return Ok(req.(files := files.value, entry := entry));
    }
  }

  function NormalizeSpec(req: Request, p: Policy, tests: bool): Result<Request, Error> {
    if req.source != "" then
      if req.files != [] then Err(BothSourceAndFiles) else Ok(req)
    else if req.files == [] then Err(NoProgram)
    else
      match Verdict(req.files, p)
      case Err(e) => Err(e)
      case Ok(out) =>
        if tests then Ok(req.(files := out, entry := ""))
        else
          match ResolveEntrypoint(req.entry, set f | f in req.files :: f.path, p)
          case Err(e) => Err(e)
          case Ok(entry) => Ok(req.(files := out, entry := entry))
  }

  /** A normalized request is a fixed point: normalizing it again returns it unchanged. */
  lemma NormalizeIdempotent(req: Request, p: Policy, tests: bool)
    requires NormalizeSpec(req, p, tests).Ok?
    ensures var once := NormalizeSpec(req, p, tests).value;
            NormalizeSpec(once, p, tests) == Ok(once)
  {
    if req.source == "" {
      var out := Verdict(req.files, p).value;
      RecheckAccepts(req.files, p);
      ResultIsCanonical(req.files, p, out);
      hide Verdict, ValidatePath, JavaClass;
      assert out != [] by {
        assert |multiset(out)| == |multiset(req.files)|;
        assert |out| == |req.files|;
      }
      assert (set f | f in out :: f.path) == (set f | f in req.files :: f.path) by {
        forall f ensures f in out <==> f in req.files {
          assert f in multiset(out) <==> f in multiset(req.files);
        }
      }
      if !tests {
        ResolvedIsFixed(req.entry, set f | f in req.files :: f.path, p);
      }
    }
  }

  lemma ResolvedIsFixed(entry: string, seen: set<string>, p: Policy)
    requires ResolveEntrypoint(entry, seen, p).Ok?
    ensures var e := ResolveEntrypoint(entry, seen, p).value;
            ResolveEntrypoint(e, seen, p) == Ok(e)
    ensures !p.entryIsClass ==> ResolveEntrypoint(entry, seen, p).value in seen
  {
    hide PathGrammar, Clean, Split;
    var e := if entry == "" then p.defaultEntry else entry;
    CleanIsPath(e, p);
  }

  // ---- writing -------------------------------------------------------------------------------

  /** What one written file is recorded as. */
  datatype Written = Written(path: string, size: nat)

  function Records(files: seq<File>): (r: seq<Written>)
    ensures |r| == |files|
    ensures forall i | 0 <= i < |files| :: r[i] == Written(files[i].path, |files[i].content|)
  {
    if files == [] then []
    else Records(files[..|files| - 1]) + [Written(files[|files| - 1].path, |files[|files| - 1].content|)]
  }

  /** The directories above a path. */
  function Parents(path: string): set<string> {
    set i | 0 <= i < |path| && path[i] == '/' :: path[..i]
  }

  lemma ParentIsPrefix(dir: string, path: string)
    ensures dir in Parents(path) <==> dir + "/" <= path
  {
    if dir + "/" <= path {
      assert path[|dir|] == (dir + "/")[|dir|] && path[..|dir|] == dir by {
        assert path[..|dir| + 1] == dir + "/";
      }
    }
    if i :| 0 <= i < |path| && path[i] == '/' && path[..i] == dir {
      assert dir + "/" == path[..i + 1];
    }
  }

  /** No file is a directory of another: none of the paths with a slash after it begins another. */
  ghost predicate CanBeTree(files: seq<File>) {
    forall f, g | f in files && g in files :: !(f.path + "/" <= g.path)
  }

  lemma TreeIsOrderFree(a: seq<File>, b: seq<File>)
    requires multiset(a) == multiset(b)
    ensures CanBeTree(a) <==> CanBeTree(b)
  {
    assert forall f :: f in a <==> f in multiset(a);
    assert forall f :: f in b <==> f in multiset(b);
  }

  /** What is on the disk after the first files: their paths, and the directories above them. */
  ghost predicate OnDisk(files: seq<File>, n: nat, written: set<string>, made: set<string>)
    requires n <= |files|
  {
    && (forall x :: x in written <==> exists i :: 0 <= i < n && files[i].path == x)
    && (forall x :: x in made <==> exists i :: 0 <= i < n && x in Parents(files[i].path))
    && (forall i, j | 0 <= i < n && 0 <= j < n :: files[i].path !in Parents(files[j].path))
  }

  /** Writing one more file into that tree works unless a directory above it is a file or it is a
      directory itself. */
  lemma OneMoreOnDisk(files: seq<File>, n: nat, written: set<string>, made: set<string>)
    requires n < |files| && OnDisk(files, n, written, made) && DistinctPaths(files)
    ensures files[n].path !in written
    ensures var up := Parents(files[n].path);
            if up * written == {} && files[n].path !in made
            then OnDisk(files, n + 1, written + {files[n].path}, made + up) else !CanBeTree(files)
  {
    hide Parents;
    var path := files[n].path;
    var up := Parents(path);
    assert path !in up by {
      ParentIsPrefix(path, path);
    }
    if up * written != {} {
      var x :| x in up * written;
      var i :| 0 <= i < n && files[i].path == x;
      ParentIsPrefix(x, path);
      assert files[i] in files && files[n] in files;
    } else if path in made {
      var i :| 0 <= i < n && path in Parents(files[i].path);
      ParentIsPrefix(path, files[i].path);
      assert files[i] in files && files[n] in files;
    } else {
      forall i, j | 0 <= i < n + 1 && 0 <= j < n + 1 ensures files[i].path !in Parents(files[j].path) {
        if i < n && j == n {
          assert files[i].path in written && files[i].path !in up * written;
        }
      }
    }
  }

  lemma AllOnDisk(files: seq<File>, written: set<string>, made: set<string>)
    requires OnDisk(files, |files|, written, made)
    ensures CanBeTree(files)
  {
    forall f, g | f in files && g in files ensures !(f.path + "/" <= g.path) {
      ParentIsPrefix(f.path, g.path);
    }
  }

  lemma NothingOnDisk(files: seq<File>)
    ensures OnDisk(files, 0, {}, {})
  {
  }

  /** `MaterializeFiles` into an empty root: checks again, without caps, then for each file makes the
      directories above it, creates it where nothing is, and records it; the order is the one its
      closing sort asks for.  An accepted list can be written exactly when no file is a directory
      of another. */
  method Materialize(files: seq<File>, p: Policy) returns (r: Result<seq<Written>, Error>)
    ensures r.Ok? <==> Acceptable(files, Uncapped(p)) && CanBeTree(files)
    ensures r.Ok? ==> r.value == Records(Sorted(files))
    ensures Verdict(files, p).Ok? ==>
              r == if CanBeTree(files) then Ok(Records(Verdict(files, p).value)) else Err(FileIsDirectory)
  {
    hide Verdict, Acceptable, Sorted, CanBeTree, OnDisk, Records;
    var checked, _ := ValidatePaths(files, Uncapped(p));
    AcceptedIffAcceptable(files, Uncapped(p));
    AcceptedIffAcceptable(files, p);
    if Acceptable(files, p) {
      UncappedAccepts(files, p);
    }
    if checked.Err? {
      return Err(checked.error);
    }
    var clean := checked.value;
    CleanIsDistinct(files, p, clean);
    NothingOnDisk(clean);
    var out := [];
    var written, made: set<string> := {}, {};
    assert Records([]) == [] by {
      RecordsStep([], 0);
    }
    for i := 0 to |clean|
      invariant out == Records(clean[..i]) && OnDisk(clean, i, written, made)
    {
      RecordsStep(clean, i);
      AcceptedFileIsClean(files, p, clean, i);
      OneMoreOnDisk(clean, i, written, made);
      var rel := Clean(clean[i].path);
      var up := Parents(rel);
      if up * written != {} {
        return Err(FileIsDirectory);
      }
      made := made + up;
      if rel in made || rel in written {
        assert rel !in up by {
          ParentIsPrefix(rel, rel);
        }
        return Err(FileIsDirectory);
      }
      written := written + {rel};
      out := out + [Written(rel, |clean[i].content|)];
    }
    AllOnDisk(clean, written, made);
    assert clean[..|clean|] == clean;
    r := Ok(out);
  }

  lemma RecordsStep(files: seq<File>, i: nat)
    requires i <= |files|
    ensures i < |files| ==>
              Records(files[..i + 1]) == Records(files[..i]) + [Written(files[i].path, |files[i].content|)]
    ensures Records([]) == []
  {
    if i < |files| {
      assert files[..i + 1][..i] == files[..i];
    }
  }

  lemma CleanIsDistinct(files: seq<File>, p: Policy, clean: seq<File>)
    requires Acceptable(files, Uncapped(p)) && clean == Sorted(files)
    ensures DistinctPaths(clean) && (CanBeTree(clean) <==> CanBeTree(files))
  {
    hide Sorted, DistinctPaths, PathOk, Size, CanBeTree;
    SortedSorts(files);
    DistinctAsMultiset(files);
    DistinctAsMultiset(clean);
    TreeIsOrderFree(files, clean);
  }

  lemma PythonName(x: char)
    requires 'a' <= x <= 'z'
    ensures var c := [x] + ".py"; ToLower(Ext(c)) == ".py" && ComponentGrammar(c) && NoSlash(c)
  {
    var c := [x] + ".py";
    assert c[..3] == [x] + ".p" && c[..3][..2] == [x] + ".";
    assert Ext([x] + ".") == ".";
    assert Ext([x] + ".p") == ".p";
    assert Ext(c) == ".py";
    assert ".py"[1..] == "py" && "py"[1..] == "y" && "y"[1..] == "";
    assert ToLower("y") == "y";
    assert ToLower("py") == "py";
  }

  lemma PythonPath(cs: seq<string>, p: Policy)
    requires cs != [] && p == Policy(0, 0, 0, 0, 0, {".py"}, {}, {}, {}, "", false)
    requires forall c | c in cs :: c == "a.py" || c == "b.py"
    ensures PathOk(Join(cs), p)
  {
    hide Ext, ToLower, Split, Join, ComponentGrammar, NoSlash;
    PythonName('a');
    PythonName('b');
    assert ['a'] + ".py" == "a.py" && ['b'] + ".py" == "b.py";
    SplitJoin(cs);
    assert cs[|cs| - 1] in cs;
  }

  /** A list that every check accepts and that cannot be written. */
  lemma AcceptedButNoTree()
    ensures var p := Policy(0, 0, 0, 0, 0, {".py"}, {}, {}, {}, "", false);
            var files := [File("a.py", ""), File("a.py/b.py", "")];
            Acceptable(files, p) && !CanBeTree(files)
  {
    hide PathOk;
    var p := Policy(0, 0, 0, 0, 0, {".py"}, {}, {}, {}, "", false);
    var files := [File("a.py", ""), File("a.py/b.py", "")];
    PythonPath(["a.py"], p);
    PythonPath(["a.py", "b.py"], p);
    assert Join(["a.py"]) == "a.py" && Join(["a.py", "b.py"]) == "a.py/b.py";
    assert files[0] in files && files[1] in files;
    assert files[0].path + "/" <= files[1].path;
  }

  lemma AcceptedFileIsClean(files: seq<File>, p: Policy, clean: seq<File>, i: nat)
    requires Acceptable(files, Uncapped(p)) && clean == Sorted(files) && i < |clean|
    ensures Clean(clean[i].path) == clean[i].path
  {
    hide Sorted, Clean, IsUnit;
    SortedSorts(files);
    assert clean[i] in multiset(clean);
    assert clean[i] in files;
    WellformedIsClean(clean[i].path);
  }
}
