/**
  The file checks in terms of the text of the names alone, without splitting, cleaning, extensions
  or sorting: which paths are accepted, which error is reported, which files are compiled, and
  which names are classes.
 */
module FileText {
  import opened Options
  import opened Paths
  import opened FilePolicy

  // ---- names -----------------------------------------------------------------------------------

  /** A letter, digit or underscore, then those, dots and dashes. */
  predicate IsName(c: string) {
    && c != "" && c[0] != '.' && c[0] != '-'
    && forall i | 0 <= i < |c| :: 'A' <= c[i] <= 'Z' || 'a' <= c[i] <= 'z' || '0' <= c[i] <= '9' || c[i] in "_.-"
  }

  /** `t` is one of the extensions, but for the case of its letters. */
  predicate IsOneOf(t: string, exts: set<string>) {
    exists e :: e in exts && |e| == |t|
                && forall i | 0 <= i < |t| :: e[i] == if 'A' <= t[i] <= 'Z' then t[i] - 'A' + 'a' else t[i]
  }

  /** The name ends in one of the extensions: the text from its last dot on, or no text. */
  predicate EndsIn(name: string, exts: set<string>) {
    if '.' in name then
      exists d :: 0 <= d < |name| && name[d] == '.' && '.' !in name[d + 1..] && IsOneOf(name[d..], exts)
    else "" in exts
  }

  lemma LoweredIsOneOf(t: string, exts: set<string>)
    ensures ToLower(t) in exts <==> IsOneOf(t, exts)
  {
    if e :| e in exts && |e| == |t|
            && forall i | 0 <= i < |t| :: e[i] == if 'A' <= t[i] <= 'Z' then t[i] - 'A' + 'a' else t[i] {
      assert e == ToLower(t);
    }
  }

  lemma ExtIsOneOf(name: string, exts: set<string>)
    requires NoSlash(name)
    ensures ToLower(Ext(name)) in exts <==> EndsIn(name, exts)
  {
    hide Ext, IsOneOf, ToLower;
    if '.' in name {
      var d := LastDot(name);
      ExtIsAfterLastDot(name[..d], name[d + 1..]);
      assert name == name[..d] + "." + name[d + 1..] && "." + name[d + 1..] == name[d..];
      LoweredIsOneOf(name[d..], exts);
      forall k | 0 <= k < |name| && name[k] == '.' && '.' !in name[k + 1..] ensures k == d {
        AfterIsIn(name, k);
        AfterIsIn(name, d);
      }
    } else {
      NoDotNoExt(name);
      assert ToLower("") == "" by {
        LoweredIsOneOf("", {""});
      }
    }
  }

  lemma AfterIsIn(name: string, k: nat)
    requires k < |name|
    ensures forall i | k < i < |name| :: name[i] in name[k + 1..]
  {
    assert forall i | k < i < |name| :: name[k + 1..][i - k - 1] == name[i];
  }

  lemma {:induction false} LastDot(name: string) returns (d: nat)
    requires '.' in name
    ensures d < |name| && name[d] == '.' && '.' !in name[d + 1..]
  {
    var n := |name| - 1;
    if name[n] == '.' {
      d := n;
    } else {
      assert name == name[..n] + [name[n]];
      d := LastDot(name[..n]);
      assert forall k | d < k < n :: name[..n][d + 1..][k - d - 1] == name[k];
    }
  }

  // ---- which paths are accepted ------------------------------------------------------------------

  /** The components are names, not too many or too long, and none of them is forbidden. */
  ghost predicate Shaped(cs: seq<string>, p: Policy) {
    && (p.maxPathBytes > 0 ==> |Join(cs)| <= p.maxPathBytes) && (p.maxPathDepth > 0 ==> |cs| <= p.maxPathDepth)
    && forall c | c in cs :: IsName(c) && c !in p.forbiddenComponents
  }

  lemma NameIsGrammar(c: string)
    ensures ComponentGrammar(c) <==> IsName(c)
  {
    assert forall i | 0 <= i < |c| :: c[i] in "_.-" <==> c[i] == '_' || c[i] == '.' || c[i] == '-';
  }

  /** The grammar of whole paths is that of names with slashes, none of them first. */
  lemma GrammarText(s: string)
    ensures PathGrammar(s) <==>
              && s != "" && s[0] !in "./-"
              && forall i | 0 <= i < |s| ::
                   'A' <= s[i] <= 'Z' || 'a' <= s[i] <= 'z' || '0' <= s[i] <= '9' || s[i] in "_./-"
  {
    assert forall i | 0 <= i < |s| :: s[i] in "_./-" <==> s[i] == '_' || s[i] == '.' || s[i] == '/' || s[i] == '-';
    assert s != "" ==> (s[0] in "./-" <==> s[0] == '.' || s[0] == '/' || s[0] == '-');
  }

  /** A path of these components is accepted if and only if they are of that shape, and the last is
      not a forbidden name and ends in an allowed extension. */
  lemma AcceptedText(cs: seq<string>, p: Policy)
    requires cs != [] && forall c | c in cs :: '/' !in c
    ensures var last := cs[|cs| - 1];
            && (ValidatePath(Join(cs), p).Ok? <==>
                  Shaped(cs, p) && last !in p.forbiddenNames && EndsIn(last, p.allowedExts))
            && (ValidatePath(Join(cs), p).Ok? ==> ValidatePath(Join(cs), p).value == Join(cs))
  {
    hide ValidatePath, Ext, ToLower, Split, EndsIn, IsName, ComponentGrammar, Join;
    SplitJoin(cs);
    ValidatePathExact(Join(cs), p);
    ExtIsOneOf(cs[|cs| - 1], p.allowedExts);
    forall c | c in cs ensures ComponentGrammar(c) <==> IsName(c) {
      NameIsGrammar(c);
    }
  }

  /** Which error: an ill-formed path before a forbidden component, that before a forbidden name, and
      that before the extension; of ill-formed and forbidden components, the first decides. */
  lemma ErrorText(cs: seq<string>, p: Policy)
    requires cs != [] && forall c | c in cs :: '/' !in c
    ensures var r := ValidatePath(Join(cs), p); var last := cs[|cs| - 1];
            && (r == Err(ForbiddenFile) <==> Shaped(cs, p) && last in p.forbiddenNames)
            && (r == Err(ForbiddenExtension) <==>
                  Shaped(cs, p) && last !in p.forbiddenNames && !EndsIn(last, p.allowedExts))
            && (r == Err(ForbiddenPath) <==> ForbiddenFirst(cs, p))
            && (r.Ok? || r in {Err(ForbiddenFile), Err(ForbiddenExtension), Err(ForbiddenPath), Err(InvalidPath)})
  {
    hide Ext, ToLower, Split, EndsIn, IsName, ComponentGrammar, Join, Clean, PathGrammar;
    var raw := Join(cs);
    SplitJoin(cs);
    ExtIsOneOf(cs[|cs| - 1], p.allowedExts);
    forall c | c in cs ensures ComponentGrammar(c) <==> IsName(c) {
      NameIsGrammar(c);
    }
    BadComponentExact(cs, p);
    BadComponentIs(cs, p);
    if Wellformed(raw) {
      WellformedIsClean(raw);
    }
    NotEmptyText(raw);
  }

  lemma NotEmptyText(raw: string)
    ensures raw == "" ==> !PathGrammar(raw)
  {
  }

  /** The path is well formed as a whole and the first component at fault is a forbidden one. */
  ghost predicate ForbiddenFirst(cs: seq<string>, p: Policy) {
    && (p.maxPathBytes > 0 ==> |Join(cs)| <= p.maxPathBytes) && (p.maxPathDepth > 0 ==> |cs| <= p.maxPathDepth)
    && PathGrammar(Join(cs)) && Clean(Join(cs)) == Join(cs)
    && exists k :: 0 <= k < |cs| && IsName(cs[k]) && cs[k] in p.forbiddenComponents
                   && forall i | 0 <= i < k :: IsName(cs[i]) && cs[i] !in p.forbiddenComponents
  }

  lemma {:induction false} BadComponentIs(cs: seq<string>, p: Policy)
    ensures BadComponent(cs, p) == Some(ForbiddenPath) <==>
              exists k :: 0 <= k < |cs| && IsName(cs[k]) && cs[k] in p.forbiddenComponents
                          && forall i | 0 <= i < k :: IsName(cs[i]) && cs[i] !in p.forbiddenComponents
    ensures BadComponent(cs, p) in {None, Some(ForbiddenPath), Some(InvalidPath)}
  {
    hide IsName, ComponentGrammar;
    if cs != [] {
      var rest := cs[1..];
      BadComponentIs(rest, p);
      NameIsGrammar(cs[0]);
      NoEmptyName();
      if IsName(cs[0]) && cs[0] !in p.forbiddenComponents {
        if k :| 0 <= k < |cs| && IsName(cs[k]) && cs[k] in p.forbiddenComponents
                && forall i | 0 <= i < k :: IsName(cs[i]) && cs[i] !in p.forbiddenComponents {
          assert rest[k - 1] == cs[k] && forall i | 0 <= i < k - 1 :: rest[i] == cs[i + 1];
        }
        if k :| 0 <= k < |rest| && IsName(rest[k]) && rest[k] in p.forbiddenComponents
                && forall i | 0 <= i < k :: IsName(rest[i]) && rest[i] !in p.forbiddenComponents {
          assert cs[k + 1] == rest[k] && forall i | 1 <= i < k + 1 :: cs[i] == rest[i - 1];
        }
      } else if IsName(cs[0]) {
        assert IsName(cs[0]) && cs[0] in p.forbiddenComponents;
      }
    }
  }

  lemma NoEmptyName()
    ensures !IsName("")
  {
  }

  // ---- which files are compiled --------------------------------------------------------------------

  lemma {:induction false} ExtOfPath(a: string, b: string)
    requires NoSlash(b)
    ensures Ext(a + "/" + b) == Ext(b)
  {
    var s := a + "/" + b;
    if b != "" {
      var c := b[..|b| - 1];
      ExtOfPath(a, c);
      assert s[..|s| - 1] == a + "/" + c && s[|s| - 1] == b[|b| - 1];
    }
  }

  lemma {:induction false} ExtOfLast(cs: seq<string>)
    requires cs != [] && forall c | c in cs :: NoSlash(c)
    ensures Ext(Join(cs)) == Ext(cs[|cs| - 1])
    decreases |cs|
  {
    hide Ext;
    if |cs| > 1 {
      var n := |cs| - 1;
      JoinAppend(cs[..n], [cs[n]]);
      assert cs == cs[..n] + [cs[n]];
      ExtOfPath(Join(cs[..n]), cs[n]);
    }
  }

  /** A file is a compile unit if and only if the last component of its path ends in a compile extension. */
  lemma UnitText(cs: seq<string>, p: Policy)
    requires cs != [] && forall c | c in cs :: '/' !in c
    ensures IsUnit(Join(cs), p) <==> EndsIn(cs[|cs| - 1], p.compileExts)
  {
    hide Ext, EndsIn, ToLower, Join;
    ExtOfLast(cs);
    ExtIsOneOf(cs[|cs| - 1], p.compileExts);
  }

  /** A cap admits what it names, and one of 0 or less admits everything. */
  lemma CapText(n: nat, cap: int)
    ensures Within(n, cap) <==> cap <= 0 || n <= cap
  {
  }

  // ---- which error a list gets -----------------------------------------------------------------------

  /** File `i` breaks a rule: of several the size is reported first, then the total so far, then the
      path, then that an earlier file has it. */
  ghost predicate Faulty(files: seq<File>, i: nat, p: Policy, e: Error)
    requires i < |files|
  {
    var f := files[i];
    var large := p.maxFileBytes > 0 && |f.content| > p.maxFileBytes;
    var many := p.maxFilesBytes > 0 && Size(files[..i + 1]) > p.maxFilesBytes;
    if large then e == FileTooLarge
    else if many then e == FilesTooLarge
    else
      || ValidatePath(f.path, p) == Err(e)
      || (ValidatePath(f.path, p).Ok? && e == DuplicatePath && exists j :: 0 <= j < i && files[j].path == f.path)
  }

  ghost predicate Faultless(files: seq<File>, i: nat, p: Policy)
    requires i <= |files|
  {
    forall k, e | 0 <= k < i :: !Faulty(files, k, p, e)
  }

  /** The first file at fault, and what it is reported for. */
  ghost predicate FirstFault(files: seq<File>, p: Policy, e: Error) {
    exists i :: 0 <= i < |files| && Faulty(files, i, p, e) && Faultless(files, i, p)
  }

  lemma {:induction false} SizeAppend(a: seq<File>, b: seq<File>)
    ensures Size(a + b) == Size(a) + Size(b)
  {
    if a == [] {
      assert a + b == b;
    } else {
      assert (a + b)[1..] == a[1..] + b;
      SizeAppend(a[1..], b);
    }
  }

  ghost predicate HavePaths(seen: set<string>, files: seq<File>, n: nat)
    requires n <= |files|
  {
    forall x :: x in seen <==> exists i :: 0 <= i < n && files[i].path == x
  }

  /** The scan of what is left after the first `n` files. */
  lemma {:induction false} ScanFinds(files: seq<File>, n: nat, p: Policy, seen: set<string>)
    requires n <= |files| && Faultless(files, n, p) && HavePaths(seen, files, n)
    ensures var r := Scan(files[n..], p, Size(files[..n]), seen);
            && (forall e :: r == Some(e) ==> FirstFault(files, p, e))
            && (r.None? ==> Faultless(files, |files|, p))
    decreases |files| - n
  {
    hide ValidatePath, Size, Faulty;
    if n < |files| {
      var f := files[n];
      assert files[n..][0] == f && files[n..][1..] == files[n + 1..];
      SizeAppend(files[..n], [f]);
      assert files[..n + 1] == files[..n] + [f];
      SizeOfOne(f);
      FaultHere(files, n, p, seen);
      ValidatedIsItself(f.path, p);
      if forall e :: !Faulty(files, n, p, e) {
        assert Faultless(files, n + 1, p);
        ScanFinds(files, n + 1, p, seen + {f.path});
      }
    }
  }

  lemma SizeOfOne(f: File)
    ensures Size([f]) == |f.content|
  {
    assert [f][1..] == [];
  }

  lemma ValidatedIsItself(raw: string, p: Policy)
    ensures ValidatePath(raw, p).Ok? ==> ValidatePath(raw, p).value == raw
  {
    hide PathOk, ValidatePath;
    ValidatePathExact(raw, p);
  }

  lemma FaultHere(files: seq<File>, n: nat, p: Policy, seen: set<string>)
    requires n < |files| && HavePaths(seen, files, n)
    ensures var f := files[n]; var total := Size(files[..n + 1]);
            && (!Within(|f.content|, p.maxFileBytes) ==> Faulty(files, n, p, FileTooLarge))
            && (Within(|f.content|, p.maxFileBytes) ==>
                  && (!Within(total, p.maxFilesBytes) ==> Faulty(files, n, p, FilesTooLarge))
                  && (Within(total, p.maxFilesBytes) ==>
                        match ValidatePath(f.path, p)
                        case Err(e) => Faulty(files, n, p, e)
                        case Ok(_) => if f.path in seen then Faulty(files, n, p, DuplicatePath)
                                      else forall e :: !Faulty(files, n, p, e)))
  {
    hide ValidatePath, Size;
  }

  lemma OneFault(files: seq<File>, i: nat, p: Policy, d: Error, e: Error)
    requires i < |files| && Faulty(files, i, p, d) && Faulty(files, i, p, e)
    ensures d == e
  {
    hide ValidatePath, Size;
  }

  lemma OneFirstFault(files: seq<File>, p: Policy, d: Error, e: Error)
    requires FirstFault(files, p, d) && FirstFault(files, p, e)
    ensures d == e
  {
    hide Faulty;
    var i :| 0 <= i < |files| && Faulty(files, i, p, d) && Faultless(files, i, p);
    var j :| 0 <= j < |files| && Faulty(files, j, p, e) && Faultless(files, j, p);
    if i == j {
      OneFault(files, i, p, d, e);
    }
  }

  /** What a list of files gets, and which error: no files, then too many, then the first fault, then
      the lack of a compile unit. */
  lemma VerdictText(files: seq<File>, p: Policy)
    ensures var r := Verdict(files, p);
            var many := p.maxFiles > 0 && |files| > p.maxFiles;
            var units := p.compileExts == {} || exists f :: f in files && IsUnit(f.path, p);
            && (files == [] ==> r == Err(NoFiles))
            && (files != [] && many ==> r == Err(TooManyFiles))
            && (files != [] && !many ==>
                  && (forall e | FirstFault(files, p, e) :: r == Err(e))
                  && (Faultless(files, |files|, p) ==> if units then r.Ok? else r == Err(NoCompileUnit))
                  && (Faultless(files, |files|, p) || exists e :: FirstFault(files, p, e)))
  {
    hide Scan, IsUnit, FirstFault, Faultless, Sorted, HasUnit;
    HasUnitExact(files, p);
    assert files[0..] == files && files[..0] == [] && Size(files[..0]) == 0;
    NothingFaulty(files, p);
    ScanFinds(files, 0, p, {});
    forall d, e | FirstFault(files, p, d) && FirstFault(files, p, e) ensures d == e {
      OneFirstFault(files, p, d, e);
    }
    if Faultless(files, |files|, p) {
      FaultlessHasNone(files, p);
    }
  }

  lemma NothingFaulty(files: seq<File>, p: Policy)
    ensures Faultless(files, 0, p)
  {
  }

  lemma FaultlessHasNone(files: seq<File>, p: Policy)
    requires Faultless(files, |files|, p)
    ensures forall e :: !FirstFault(files, p, e)
  {
    hide Faulty;
  }

  // ---- class names -------------------------------------------------------------------------------------

  predicate ClassStart(c: char) { 'A' <= c <= 'Z' || 'a' <= c <= 'z' || c in "_$" }

  /** Letters, digits, underscores, dollars and dots; at the start and after each dot comes a letter,
      underscore or dollar. */
  predicate IsClassName(s: string, start: bool) {
    && (if s == "" then !start else start ==> ClassStart(s[0]))
    && (forall i | 0 <= i < |s| :: ClassStart(s[i]) || '0' <= s[i] <= '9' || s[i] == '.')
    && forall i | 0 <= i < |s| && s[i] == '.' :: i + 1 < |s| && ClassStart(s[i + 1])
  }

  lemma {:induction false} ClassText(s: string, start: bool)
    ensures JavaClass(s, start) <==> IsClassName(s, start)
    decreases |s|
  {
    if s != "" {
      ClassText(s[1..], !start && s[0] == '.');
      ClassOfTail(s, start);
      hide IsClassName;
    }
  }

  /** Which error an entrypoint gets: a class name is right or wrong in itself; a path is wrong in
      itself, or right and missing from the files. */
  lemma EntryText(entry: string, seen: set<string>, p: Policy)
    ensures var r := ResolveEntrypoint(entry, seen, p); var e := if entry == "" then p.defaultEntry else entry;
            && (r.Ok? ==> r.value == e)
            && (p.entryIsClass ==> if IsClassName(e, true) then r.Ok? else r == Err(InvalidEntrypoint))
            && (!p.entryIsClass ==>
                  && (ValidatePath(e, p).Err? ==> r == Err(InvalidEntrypoint))
                  && (ValidatePath(e, p).Ok? ==> if e in seen then r.Ok? else r == Err(MissingEntrypoint)))
  {
    hide ValidatePath, IsClassName, JavaClass;
    var e := if entry == "" then p.defaultEntry else entry;
    ClassText(e, true);
    ValidatedIsItself(e, p);
  }

  lemma ClassOfTail(s: string, start: bool)
    requires s != ""
    ensures IsClassName(s, start) <==>
              && (ClassStart(s[0]) || (!start && ('0' <= s[0] <= '9' || s[0] == '.')))
              && IsClassName(s[1..], s[0] == '.')
  {
    var t := s[1..];
    assert forall i | 0 <= i < |t| :: t[i] == s[i + 1];
    assert forall i | 0 < i < |s| :: s[i] == t[i - 1];
  }
}
