// One batch: a program run once per input, under a wall budget that is looked
// at between runs only (internal/executor/batch.go). Time is in nanoseconds.
module Batch {

  const NS_PER_MS := 1_000_000

  // What the world does with one input: what the run returns, how long it
  // takes, and whether the request context is already gone when its turn comes.
  datatype Turn<R> = Turn(result: R, took: nat, gone: bool)

  ghost function Results<R>(turns: seq<Turn<R>>): (rs: seq<R>)
    ensures |rs| == |turns| && forall i | 0 <= i < |turns| :: rs[i] == turns[i].result
  {
    if turns == [] then [] else Results(turns[..|turns| - 1]) + [turns[|turns| - 1].result]
  }

  ghost function Spent<R>(turns: seq<Turn<R>>): nat {
    if turns == [] then 0 else Spent(turns[..|turns| - 1]) + turns[|turns| - 1].took
  }

  // The clock, from the batch epoch, when the k-th input's turn comes.
  ghost function ClockAt<R>(turns: seq<Turn<R>>, compile: nat, k: nat): nat
    requires k <= |turns|
  {
    compile + Spent(turns[..k])
  }

  ghost predicate OverBudget(clock: int, budgetMs: int) {
    budgetMs > 0 && clock >= budgetMs * NS_PER_MS
  }

  ghost predicate Stops<R>(turns: seq<Turn<R>>, compile: nat, budgetMs: int, k: nat)
    requires k < |turns|
  {
    OverBudget(ClockAt(turns, compile, k), budgetMs) || turns[k].gone
  }

  // The first k inputs ran, and no more: either they are all, or the next one
  // is the first that finds a reason to stop.
  ghost predicate RunsExactly<R>(turns: seq<Turn<R>>, compile: nat, budgetMs: int, k: nat) {
    && k <= |turns|
    && (forall j :: 0 <= j < k ==> !Stops(turns, compile, budgetMs, j))
    && (k < |turns| ==> Stops(turns, compile, budgetMs, k))
  }

  method BatchLoop<R>(turns: seq<Turn<R>>, compile: nat, budgetMs: int)
      returns (results: seq<R>, aborted: bool, clock: nat)
    ensures |results| <= |turns| && results == Results(turns[..|results|])
    ensures RunsExactly(turns, compile, budgetMs, |results|)
    ensures aborted <==> |results| < |turns|
    ensures clock == ClockAt(turns, compile, |results|)
  {
    results := [];
    clock := compile;
    for i := 0 to |turns|
      invariant |results| == i && results == Results(turns[..i])
      invariant clock == ClockAt(turns, compile, i)
      invariant forall j :: 0 <= j < i ==> !Stops(turns, compile, budgetMs, j)
    {
      if budgetMs > 0 && clock >= budgetMs * NS_PER_MS {
        return results, true, clock;
      }
      if turns[i].gone {
        return results, true, clock;
      }
      assert turns[..i + 1][..i] == turns[..i];
      results := results + [turns[i].result];
      clock := clock + turns[i].took;
    }
    aborted := false;
  }

  // The number of inputs that run is determined by the budget and the clock.
  lemma RunCountIsUnique<R>(turns: seq<Turn<R>>, compile: nat, budgetMs: int, a: nat, b: nat)
    requires RunsExactly(turns, compile, budgetMs, a)
    requires RunsExactly(turns, compile, budgetMs, b)
    ensures a == b
  {
  }

  // The whole batch, compile phase included, overshoots its budget by less
  // than one run, unless the compile alone already did.
  lemma OvershootIsOneRun<R>(turns: seq<Turn<R>>, compile: nat, budgetMs: int, k: nat, longest: nat)
    requires budgetMs > 0
    requires RunsExactly(turns, compile, budgetMs, k)
    requires forall t :: t in turns ==> t.took <= longest
    ensures ClockAt(turns, compile, k) == compile
         || ClockAt(turns, compile, k) < budgetMs * NS_PER_MS + longest
  {
    if k > 0 {
      assert !Stops(turns, compile, budgetMs, k - 1);
      assert turns[..k][..k - 1] == turns[..k - 1];
      assert turns[k - 1] in turns;
    }
  }

  // A larger budget never runs fewer inputs, so a partial result is a prefix
  // of the result the larger budget gives.
  lemma LargerBudgetExtends<R>(turns: seq<Turn<R>>, compile: nat, less: int, more: int, a: nat, b: nat)
    requires 0 < less <= more
    requires RunsExactly(turns, compile, less, a)
    requires RunsExactly(turns, compile, more, b)
    ensures a <= b
    ensures Results(turns[..a]) <= Results(turns[..b])
  {
    assert b < |turns| ==> Stops(turns, compile, less, b);
    ResultsOfPrefix(turns[..b], a);
    assert turns[..b][..a] == turns[..a];
  }

  lemma {:induction false} ResultsOfPrefix<R>(turns: seq<Turn<R>>, a: nat)
    requires a <= |turns|
    ensures Results(turns[..a]) <= Results(turns)
  {
    if a < |turns| {
      ResultsOfPrefix(turns[..|turns| - 1], a);
      assert turns[..|turns| - 1][..a] == turns[..a];
    } else {
      assert turns[..a] == turns;
    }
  }
}
