// The metrics registry, specified by the list of runs it has observed
// (internal/metrics/metrics.go). Seconds are reals.
module Metrics {

  const RUN_BUCKETS: seq<real> := [0.05, 0.1, 0.25, 0.5, 1.0, 2.5, 5.0, 10.0]
  const COMPILE_BUCKETS: seq<real> := [0.1, 0.5, 1.0, 2.5, 5.0, 10.0, 20.0]

  ghost predicate Ascending(bs: seq<real>) {
    forall i, j :: 0 <= i < j < |bs| ==> bs[i] < bs[j]
  }

  // The slot an observation belongs to: the first bound at or above it.
  ghost predicate IsSlot(bs: seq<real>, v: real, k: int) {
    && 0 <= k <= |bs|
    && (k > 0 ==> bs[k - 1] < v)
    && (k < |bs| ==> v <= bs[k])
  }

  /** How many observations belong to slot k. */
  ghost function InSlot(bs: seq<real>, seen: seq<real>, k: int): nat {
    if seen == [] then 0
    else InSlot(bs, seen[..|seen| - 1], k) + if IsSlot(bs, seen[|seen| - 1], k) then 1 else 0
  }

  /** How many observations are at or below a bound. */
  ghost function AtMost(seen: seq<real>, bound: real): nat {
    if seen == [] then 0
    else AtMost(seen[..|seen| - 1], bound) + if seen[|seen| - 1] <= bound then 1 else 0
  }

  ghost function Sum(seen: seq<real>): real {
    if seen == [] then 0.0 else Sum(seen[..|seen| - 1]) + seen[|seen| - 1]
  }

  // Binary search for the first index whose element is at or above x.
  method SearchFloat64s(a: seq<real>, x: real) returns (k: nat)
    requires Ascending(a)
    ensures IsSlot(a, x, k)
    ensures forall i :: 0 <= i < k ==> a[i] < x
    ensures forall i :: k <= i < |a| ==> x <= a[i]
  {
    var i, j := 0, |a|;
    while i < j
      invariant 0 <= i <= j <= |a|
      invariant forall h :: 0 <= h < i ==> a[h] < x
      invariant forall h :: j <= h < |a| ==> x <= a[h]
    {
      var h := (i + j) / 2;
      if a[h] < x {
        i := h + 1;
      } else {
        j := h;
      }
    }
    k := i;
  }

  class Histogram {
    const buckets: seq<real>
    var counts: seq<int>  // one per bucket, then the +Inf overflow
    var sum: real
    ghost var seen: seq<real>

    ghost predicate Valid()
      reads this
    {
      && Ascending(buckets)
      && |counts| == |buckets| + 1
      && (forall k :: 0 <= k < |counts| ==> counts[k] == InSlot(buckets, seen, k))
      && sum == Sum(seen)
    }

    constructor (buckets: seq<real>)
      requires Ascending(buckets)
      ensures Valid() && seen == [] && this.buckets == buckets
    {
      this.buckets := buckets;
      counts := seq(|buckets| + 1, _ => 0);
      sum, seen := 0.0, [];
    }

    method Observe(v: real)
      requires Valid()
      modifies this
      ensures Valid()
      ensures seen == old(seen) + [v]
    {
      assert (seen + [v])[..|seen|] == seen;
      sum := sum + v;
      var k := SearchFloat64s(buckets, v);
      counts := counts[k := counts[k] + 1];
      forall h | 0 <= h < |counts| && h != k
        ensures !IsSlot(buckets, v, h)
      {
      }
      seen := seen + [v];
    }

    // What the scrape shows: one running total per bound, then the total that
    // both +Inf and _count print, and _sum.
    method Render() returns (cums: seq<int>, total: int, shownSum: real)
      requires Valid()
      ensures |cums| == |buckets|
      ensures forall i :: 0 <= i < |buckets| ==> cums[i] == AtMost(seen, buckets[i])
      ensures total == |seen| && shownSum == Sum(seen)
    {
      var cum := 0;
      cums := [];
      for i := 0 to |buckets|
        invariant |cums| == i
        invariant cum == UpTo(buckets, seen, i)
        invariant forall j :: 0 <= j < i ==> cums[j] == AtMost(seen, buckets[j])
      {
        cum := cum + counts[i];
        UpToIsAtMost(buckets, seen, i);
        cums := cums + [cum];
      }
      cum := cum + counts[|buckets|];
      UpToIsAll(buckets, seen);
      return cums, cum, sum;
    }
  }

  // The observations in the slots below k, all together.
  ghost function UpTo(bs: seq<real>, seen: seq<real>, k: nat): nat {
    if k == 0 then 0 else UpTo(bs, seen, k - 1) + InSlot(bs, seen, k - 1)
  }

  // A single observation is in one slot only, the one of its first bound.
  lemma {:induction false} UpToStep(bs: seq<real>, seen: seq<real>, v: real, slot: nat, k: nat)
    requires Ascending(bs) && IsSlot(bs, v, slot)
    ensures UpTo(bs, seen + [v], k) == UpTo(bs, seen, k) + if slot < k then 1 else 0
  {
    if k > 0 {
      UpToStep(bs, seen, v, slot, k - 1);
      assert (seen + [v])[..|seen|] == seen;
    }
  }

  ghost function SlotOf(bs: seq<real>, v: real): (k: nat)
    requires Ascending(bs)
    ensures IsSlot(bs, v, k)
  {
    if bs == [] || bs[|bs| - 1] < v then |bs| else SlotOf(bs[..|bs| - 1], v)
  }

  lemma {:induction false} UpToNothing(bs: seq<real>, k: nat)
    ensures UpTo(bs, [], k) == 0
  {
    if k > 0 {
      UpToNothing(bs, k - 1);
    }
  }

  lemma {:induction false} UpToIsAtMost(bs: seq<real>, seen: seq<real>, i: nat)
    requires Ascending(bs) && i < |bs|
    ensures UpTo(bs, seen, i + 1) == AtMost(seen, bs[i])
  {
    if seen == [] {
      UpToNothing(bs, i + 1);
    } else {
      var before, v := seen[..|seen| - 1], seen[|seen| - 1];
      assert seen == before + [v];
      UpToIsAtMost(bs, before, i);
      UpToStep(bs, before, v, SlotOf(bs, v), i + 1);
    }
  }

  lemma {:induction false} UpToIsAll(bs: seq<real>, seen: seq<real>)
    requires Ascending(bs)
    ensures UpTo(bs, seen, |bs| + 1) == |seen|
  {
    if seen == [] {
      UpToNothing(bs, |bs| + 1);
    } else {
      var before, v := seen[..|seen| - 1], seen[|seen| - 1];
      assert seen == before + [v];
      UpToIsAll(bs, before);
      UpToStep(bs, before, v, SlotOf(bs, v), |bs| + 1);
    }
  }

  // ---- the registry

  // The terminal statuses that have a counter of their own, and the rest.
  datatype Status = MemoryExceeded | TimedOut | OutputLimitExceeded | Other(name: string)

  datatype Run = Run(language: string, status: Status, durationMs: int, compileMs: int)

  function Seconds(ms: int): (s: real)
    ensures s * 1000.0 == ms as real
  {
    ms as real / 1000.0
  }

  ghost function RunsWith(runs: seq<Run>, language: string, status: Status): nat {
    if runs == [] then 0
    else
      var last := runs[|runs| - 1];
      RunsWith(runs[..|runs| - 1], language, status)
      + if last.language == language && last.status == status then 1 else 0
  }

  ghost function Ending(runs: seq<Run>, status: Status): nat {
    if runs == [] then 0
    else Ending(runs[..|runs| - 1], status) + if runs[|runs| - 1].status == status then 1 else 0
  }

  // The wall times of one language's runs, and the compile times of those that compiled.
  ghost function Durations(runs: seq<Run>, language: string): seq<real> {
    if runs == [] then []
    else
      var last := runs[|runs| - 1];
      Durations(runs[..|runs| - 1], language)
      + if last.language == language then [Seconds(last.durationMs)] else []
  }

  ghost function Compiles(runs: seq<Run>, language: string): seq<real> {
    if runs == [] then []
    else
      var last := runs[|runs| - 1];
      Compiles(runs[..|runs| - 1], language)
      + if last.language == language && last.compileMs > 0 then [Seconds(last.compileMs)] else []
  }

  lemma CountsGrow(runs: seq<Run>, run: Run)
    ensures forall l, s :: RunsWith(runs + [run], l, s)
              == RunsWith(runs, l, s) + if run.language == l && run.status == s then 1 else 0
    ensures forall s :: Ending(runs + [run], s) == Ending(runs, s) + if run.status == s then 1 else 0
  {
    assert (runs + [run])[..|runs|] == runs;
  }

  lemma TimesGrow(runs: seq<Run>, run: Run)
    ensures forall l :: Durations(runs + [run], l)
              == Durations(runs, l) + if run.language == l then [Seconds(run.durationMs)] else []
    ensures forall l :: Compiles(runs + [run], l)
              == Compiles(runs, l) + if run.language == l && run.compileMs > 0 then [Seconds(run.compileMs)] else []
  {
    assert (runs + [run])[..|runs|] == runs;
  }

  // A counter map read as the language it prints for: a missing key is zero.
  function At<K>(m: map<K, int>, k: K): int {
    if k in m then m[k] else 0
  }

  ghost predicate Accounts(runsTotal: map<(string, Status), int>, oom: map<string, int>,
                           timeout: map<string, int>, outputLimit: int, runs: seq<Run>) {
    && (forall l, s :: At(runsTotal, (l, s)) == RunsWith(runs, l, s))
    && (forall l :: At(oom, l) == RunsWith(runs, l, MemoryExceeded))
    && (forall l :: At(timeout, l) == RunsWith(runs, l, TimedOut))
    && outputLimit == Ending(runs, OutputLimitExceeded)
  }

  /** A counter map with one key raised by one. */
  function Bumped<K>(m: map<K, int>, k: K): map<K, int> {
    m[k := At(m, k) + 1]
  }

  lemma AccountsGrow(runsTotal: map<(string, Status), int>, oom: map<string, int>,
                     timeout: map<string, int>, outputLimit: int, runs: seq<Run>, run: Run)
    requires Accounts(runsTotal, oom, timeout, outputLimit, runs)
    ensures Accounts(Bumped(runsTotal, (run.language, run.status)),
                     if run.status == MemoryExceeded then Bumped(oom, run.language) else oom,
                     if run.status == TimedOut then Bumped(timeout, run.language) else timeout,
                     if run.status == OutputLimitExceeded then outputLimit + 1 else outputLimit,
                     runs + [run])
  {
    CountsGrow(runs, run);
  }

  // A table of histograms: each language has its own object.
  ghost predicate Family(hs: map<string, Histogram>, buckets: seq<real>)
    reads hs.Values
  {
    && (forall l :: l in hs ==> hs[l].Valid() && hs[l].buckets == buckets)
    && (forall l, k :: l in hs && k in hs && l != k ==> hs[l] != hs[k])
  }

  /** What a language's histogram has observed; nothing when it has none. */
  ghost function Seen(hs: map<string, Histogram>, language: string): seq<real>
    reads hs.Values
  {
    if language in hs then hs[language].seen else []
  }

  // The two tables say what the runs took: no run's time is lost, moved or repeated.
  ghost predicate Timed(runDur: map<string, Histogram>, compileDur: map<string, Histogram>, runs: seq<Run>)
    reads runDur.Values, compileDur.Values
  {
    && runDur.Values !! compileDur.Values
    && Family(runDur, RUN_BUCKETS) && Family(compileDur, COMPILE_BUCKETS)
    && (forall l :: Seen(runDur, l) == Durations(runs, l))
    && (forall l :: Seen(compileDur, l) == Compiles(runs, l))
  }

  class Metrics {
    var runsTotal: map<(string, Status), int>
    var oomTotal: map<string, int>
    var timeoutTotal: map<string, int>
    var outputLimit: int
    var runDur: map<string, Histogram>
    var compileDur: map<string, Histogram>
    ghost var runs: seq<Run>

    ghost predicate Valid()
      reads this, runDur.Values, compileDur.Values
    {
      Accounts(runsTotal, oomTotal, timeoutTotal, outputLimit, runs) && Timed(runDur, compileDur, runs)
    }

    constructor ()
      ensures Valid() && runs == [] && runDur == map[] && compileDur == map[]
    {
      runsTotal, oomTotal, timeoutTotal, outputLimit := map[], map[], map[], 0;
      runDur, compileDur, runs := map[], map[], [];
    }

    method ObserveRun(language: string, status: Status, durationMs: int, compileMs: int)
      requires Valid()
      modifies this, runDur.Values, compileDur.Values
      ensures Valid()
      ensures fresh(runDur.Values - old(runDur.Values)) && fresh(compileDur.Values - old(compileDur.Values))
      ensures runs == old(runs) + [Run(language, status, durationMs, compileMs)]
    {
      hide Accounts, Timed;
      ghost var run := Run(language, status, durationMs, compileMs);
      var rd, cd := Times(runDur, compileDur, language, durationMs, compileMs, runs, run);
      Tally(language, status, run);
      runDur, compileDur, runs := rd, cd, runs + [run];
    }

    // The counters of one run.
    method Tally(language: string, status: Status, ghost run: Run)
      requires run.language == language && run.status == status
      requires Accounts(runsTotal, oomTotal, timeoutTotal, outputLimit, runs)
      modifies this`runsTotal, this`oomTotal, this`timeoutTotal, this`outputLimit
      ensures Accounts(runsTotal, oomTotal, timeoutTotal, outputLimit, runs + [run])
    {
      hide Accounts, Bumped;
      AccountsGrow(runsTotal, oomTotal, timeoutTotal, outputLimit, runs, run);
      runsTotal := Bumped(runsTotal, (language, status));
      match status {
        case MemoryExceeded => oomTotal := Bumped(oomTotal, language);
        case TimedOut => timeoutTotal := Bumped(timeoutTotal, language);
        case OutputLimitExceeded => outputLimit := outputLimit + 1;
        case Other(_) =>
      }
    }
  }

  // Both histograms of one run; a compile time that is not positive is skipped.
  method Times(ran: map<string, Histogram>, compiled: map<string, Histogram>,
               language: string, durationMs: int, compileMs: int, ghost runs: seq<Run>, ghost run: Run)
      returns (moreRan: map<string, Histogram>, moreCompiled: map<string, Histogram>)
    requires Timed(ran, compiled, runs)
    requires run.language == language && run.durationMs == durationMs && run.compileMs == compileMs
    modifies ran.Values, compiled.Values
    ensures Timed(moreRan, moreCompiled, runs + [run])
    ensures ran.Values <= moreRan.Values && fresh(moreRan.Values - ran.Values)
    ensures compiled.Values <= moreCompiled.Values && fresh(moreCompiled.Values - compiled.Values)
  {
    hide Family, Seen, Seconds, Durations, Compiles;
    moreRan := Into(ran, language, RUN_BUCKETS, Seconds(durationMs));
    moreCompiled := compiled;
    if compileMs > 0 {
      moreCompiled := Into(compiled, language, COMPILE_BUCKETS, Seconds(compileMs));
    }
    TimesGrow(runs, run);
  }

  // hist followed by observe: the language's histogram, made on first use,
  // takes one more observation; no other histogram is touched.
  method Into(hs: map<string, Histogram>, language: string, buckets: seq<real>, v: real)
      returns (grown: map<string, Histogram>)
    requires Ascending(buckets) && Family(hs, buckets)
    modifies hs.Values
    ensures Family(grown, buckets)
    ensures forall l :: Seen(grown, l) == old(Seen(hs, l)) + if l == language then [v] else []
    ensures hs.Values <= grown.Values && fresh(grown.Values - hs.Values)
  {
    grown := hs;
    if language !in hs {
      var made := new Histogram(buckets);
      grown := grown[language := made];
      assert forall l :: l in hs ==> grown[l] == hs[l];
    }
    grown[language].Observe(v);
  }

  // ---- what a scrape adds up to

  ghost predicate Distinct<T>(xs: seq<T>) {
    forall i, j :: 0 <= i < j < |xs| ==> xs[i] != xs[j]
  }

  ghost function OverStatuses(total: map<(string, Status), int>, language: string, ss: seq<Status>): int {
    if ss == [] then 0
    else OverStatuses(total, language, ss[..|ss| - 1]) + At(total, (language, ss[|ss| - 1]))
  }

  ghost function OverLanguages(total: map<(string, Status), int>, ls: seq<string>, status: Status): int {
    if ls == [] then 0
    else OverLanguages(total, ls[..|ls| - 1], status) + At(total, (ls[|ls| - 1], status))
  }

  // The run counters of a language, summed over its statuses, are the count
  // its run histogram prints; the compile histogram never counts more.
  lemma RunsBalanceHistogram(m: Metrics, language: string, ss: seq<Status>)
    requires m.Valid() && Distinct(ss)
    requires forall r :: r in m.runs && r.language == language ==> r.status in ss
    ensures OverStatuses(m.runsTotal, language, ss) == |Seen(m.runDur, language)|
    ensures |Seen(m.compileDur, language)| <= |Seen(m.runDur, language)|
  {
    StatusesCoverRuns(m.runsTotal, m.runs, language, ss);
    FewerCompiles(m.runs, language);
  }

  // Each counter with a name of its own repeats a run counter exactly.
  lemma NamedCountersAgree(m: Metrics, language: string, ls: seq<string>)
    requires m.Valid() && Distinct(ls)
    requires forall r :: r in m.runs ==> r.language in ls
    ensures At(m.oomTotal, language) == At(m.runsTotal, (language, MemoryExceeded))
    ensures At(m.timeoutTotal, language) == At(m.runsTotal, (language, TimedOut))
    ensures m.outputLimit == OverLanguages(m.runsTotal, ls, OutputLimitExceeded)
  {
    LanguagesCoverRuns(m.runsTotal, m.runs, ls, OutputLimitExceeded);
  }

  ghost function SumOfRuns(runs: seq<Run>, language: string, ss: seq<Status>): nat {
    if ss == [] then 0
    else SumOfRuns(runs, language, ss[..|ss| - 1]) + RunsWith(runs, language, ss[|ss| - 1])
  }

  lemma {:induction false} OneMoreStatus(runs: seq<Run>, language: string, ss: seq<Status>)
    requires runs != [] && Distinct(ss)
    ensures var last := runs[|runs| - 1];
            SumOfRuns(runs, language, ss) == SumOfRuns(runs[..|runs| - 1], language, ss)
              + if last.language == language && last.status in ss then 1 else 0
  {
    if ss != [] {
      OneMoreStatus(runs, language, ss[..|ss| - 1]);
    }
  }

  lemma {:induction false} SumIsCount(runs: seq<Run>, language: string, ss: seq<Status>)
    requires Distinct(ss)
    requires forall r :: r in runs && r.language == language ==> r.status in ss
    ensures SumOfRuns(runs, language, ss) == |Durations(runs, language)|
  {
    if runs == [] {
      NoRunsNoSum(language, ss);
    } else {
      OneMoreStatus(runs, language, ss);
      SumIsCount(runs[..|runs| - 1], language, ss);
    }
  }

  lemma {:induction false} NoRunsNoSum(language: string, ss: seq<Status>)
    ensures SumOfRuns([], language, ss) == 0
  {
    if ss != [] {
      NoRunsNoSum(language, ss[..|ss| - 1]);
    }
  }

  lemma {:induction false} StatusesAgree(total: map<(string, Status), int>, runs: seq<Run>, language: string,
                                         ss: seq<Status>)
    requires forall s :: At(total, (language, s)) == RunsWith(runs, language, s)
    ensures OverStatuses(total, language, ss) == SumOfRuns(runs, language, ss)
  {
    if ss != [] {
      StatusesAgree(total, runs, language, ss[..|ss| - 1]);
    }
  }

  lemma StatusesCoverRuns(total: map<(string, Status), int>, runs: seq<Run>, language: string, ss: seq<Status>)
    requires forall s :: At(total, (language, s)) == RunsWith(runs, language, s)
    requires Distinct(ss)
    requires forall r :: r in runs && r.language == language ==> r.status in ss
    ensures OverStatuses(total, language, ss) == |Durations(runs, language)|
  {
    StatusesAgree(total, runs, language, ss);
    SumIsCount(runs, language, ss);
  }

  lemma {:induction false} FewerCompiles(runs: seq<Run>, language: string)
    ensures |Compiles(runs, language)| <= |Durations(runs, language)|
  {
    if runs != [] {
      FewerCompiles(runs[..|runs| - 1], language);
    }
  }

  ghost function EndingIn(runs: seq<Run>, ls: seq<string>, status: Status): nat {
    if ls == [] then 0
    else EndingIn(runs, ls[..|ls| - 1], status) + RunsWith(runs, ls[|ls| - 1], status)
  }

  lemma {:induction false} OneMoreLanguage(runs: seq<Run>, ls: seq<string>, status: Status)
    requires runs != [] && Distinct(ls)
    ensures var last := runs[|runs| - 1];
            EndingIn(runs, ls, status) == EndingIn(runs[..|runs| - 1], ls, status)
              + if last.status == status && last.language in ls then 1 else 0
  {
    if ls != [] {
      OneMoreLanguage(runs, ls[..|ls| - 1], status);
    }
  }

  lemma {:induction false} NoRunsNoEnding(ls: seq<string>, status: Status)
    ensures EndingIn([], ls, status) == 0
  {
    if ls != [] {
      NoRunsNoEnding(ls[..|ls| - 1], status);
    }
  }

  lemma {:induction false} EndingIsCount(runs: seq<Run>, ls: seq<string>, status: Status)
    requires Distinct(ls)
    requires forall r :: r in runs ==> r.language in ls
    ensures EndingIn(runs, ls, status) == Ending(runs, status)
  {
    if runs == [] {
      NoRunsNoEnding(ls, status);
    } else {
      OneMoreLanguage(runs, ls, status);
      assert runs[|runs| - 1] in runs;
      EndingIsCount(runs[..|runs| - 1], ls, status);
    }
  }

  lemma {:induction false} LanguagesAgree(total: map<(string, Status), int>, runs: seq<Run>, ls: seq<string>,
                                          status: Status)
    requires forall l :: At(total, (l, status)) == RunsWith(runs, l, status)
    ensures OverLanguages(total, ls, status) == EndingIn(runs, ls, status)
  {
    if ls != [] {
      LanguagesAgree(total, runs, ls[..|ls| - 1], status);
    }
  }

  lemma LanguagesCoverRuns(total: map<(string, Status), int>, runs: seq<Run>, ls: seq<string>, status: Status)
    requires forall l :: At(total, (l, status)) == RunsWith(runs, l, status)
    requires Distinct(ls)
    requires forall r :: r in runs ==> r.language in ls
    ensures OverLanguages(total, ls, status) == Ending(runs, status)
  {
    LanguagesAgree(total, runs, ls, status);
    EndingIsCount(runs, ls, status);
  }
}
