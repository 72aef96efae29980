/**
  Whose value is it?  The part of the gdb driver's loop that attaches a returned value to a
  recorded step: `_id_de_quadro`, `_Devolucao`, and the call and return bookkeeping of
  `collect`.  The debugger is a machine that pushes and pops frames; between two stops it
  may make any number of moves, so several calls of one line, and recursion, are included.

  `uid` is the true identity of a call.  The driver never sees it: it only sees the key, the
  pair (pc of the caller, sp of the caller), which sibling calls reuse.
 */
module Attribution {
  import opened Numbers
  import opened Options

  const MAX_STACK := 25

  type FrameKey = (int, int)

  /** A live frame; the outermost one, or a failing register read, has no key. */
  datatype Live = Live(uid: nat, func: string, student: bool, key: Option<FrameKey>)

  /** A finish breakpoint with the level it was armed at. */
  datatype Armed<V> = Armed(level: nat, uid: nat, key: Option<FrameKey>, fired: bool, value: Option<V>)

  // ---- lists ---------------------------------------------------------------------------

  function Filter<T>(xs: seq<T>, p: T -> bool): (r: seq<T>)
    ensures forall x | x in r :: x in xs && p(x)
    ensures forall x | x in xs && p(x) :: x in r
    ensures |r| <= |xs|
  {
    if xs == [] then []
    else
      var rest, last := Filter(xs[..|xs| - 1], p), xs[|xs| - 1];
      assert xs == xs[..|xs| - 1] + [last];
      if p(last) then rest + [last] else rest
  }

  ghost predicate Distinct<V>(xs: seq<Armed<V>>) {
    forall i, j | 0 <= i < j < |xs| :: xs[i].uid != xs[j].uid
  }

  lemma {:induction false} FilterDistinct<V>(xs: seq<Armed<V>>, p: Armed<V> -> bool)
    requires Distinct(xs)
    ensures Distinct(Filter(xs, p))
  {
    if xs != [] {
      var rest, last := xs[..|xs| - 1], xs[|xs| - 1];
      FilterDistinct(rest, p);
      assert forall x | x in Filter(rest, p) :: x in rest;
      assert forall x | x in rest :: x.uid != last.uid;
    }
  }

  function Fire<V>(xs: seq<Armed<V>>, uid: nat, value: Option<V>): (r: seq<Armed<V>>)
    ensures |r| == |xs| && forall i | 0 <= i < |xs| ::
              r[i] == if xs[i].uid == uid && !xs[i].fired then xs[i].(fired := true, value := value) else xs[i]
  {
    if xs == [] then []
    else
      var last := xs[|xs| - 1];
      Fire(xs[..|xs| - 1], uid, value)
      + [if last.uid == uid && !last.fired then last.(fired := true, value := value) else last]
  }

  // ---- stacks ----------------------------------------------------------------------------

  function StudentFuncs(stack: seq<Live>): seq<string> {
    if stack == [] then []
    else
      var rest, last := StudentFuncs(stack[..|stack| - 1]), stack[|stack| - 1];
      if last.student then rest + [last.func] else rest
  }

  /** The functions a snapshot lists: the student's, among the innermost MAX_STACK frames. */
  function Shown(stack: seq<Live>): seq<string> {
    StudentFuncs(stack[|stack| - Min(MAX_STACK, |stack|)..])
  }

  /** `at` are, in order, the places of the student's frames from `first` on. */
  ghost predicate StudentsAt(at: seq<nat>, stack: seq<Live>, first: int) {
    && (forall i, j | 0 <= i < j < |at| :: at[i] < at[j])
    && forall i: nat {:trigger i in at} :: i in at <==> first <= i < |stack| && stack[i].student
  }

  /** `funcs` are the functions of those frames. */
  ghost predicate NamesOf(funcs: seq<string>, at: seq<nat>, stack: seq<Live>) {
    |funcs| == |at| && forall k | 0 <= k < |at| :: at[k] < |stack| && funcs[k] == stack[at[k]].func
  }

  /** What a snapshot lists: in order, the functions of exactly the student's frames that are not
      more than 25 from the innermost. */
  lemma ShownIs(stack: seq<Live>)
    ensures exists at :: StudentsAt(at, stack, |stack| - 25) && NamesOf(Shown(stack), at, stack)
  {
    var cut := |stack| - Min(MAX_STACK, |stack|);
    var found := FindStudents(stack[cut..]);
    hide StudentFuncs;
    var at := Shifted(found, stack, cut);
    assert StudentsAt(at, stack, cut) ==> StudentsAt(at, stack, |stack| - 25);
    assert NamesOf(Shown(stack), at, stack);
  }

  lemma Shifted(found: seq<nat>, stack: seq<Live>, cut: nat) returns (at: seq<nat>)
    requires cut <= |stack| && StudentsAt(found, stack[cut..], 0)
    ensures StudentsAt(at, stack, cut)
    ensures |at| == |found| && forall k | 0 <= k < |at| :: at[k] == cut + found[k] < |stack|
  {
    at := seq(|found|, k requires 0 <= k < |found| => cut + found[k]);
    forall k | 0 <= k < |at| ensures at[k] < |stack| && stack[at[k]].student {
      assert found[k] in found;
      assert stack[cut..][found[k]] == stack[at[k]];
    }
    forall i: nat ensures i in at <==> cut <= i < |stack| && stack[i].student {
      if cut <= i < |stack| && stack[i].student {
        assert stack[cut..][i - cut] == stack[i];
        assert i - cut in found;
        var k :| 0 <= k < |found| && found[k] == i - cut;
        assert at[k] == i;
      }
    }
  }

  lemma {:induction false} FindStudents(stack: seq<Live>) returns (at: seq<nat>)
    ensures StudentsAt(at, stack, 0) && NamesOf(StudentFuncs(stack), at, stack)
  {
    at := [];
    if stack != [] {
      hide StudentsAt, NamesOf;
      var n := |stack| - 1;
      var rest := FindStudents(stack[..n]);
      at := if stack[n].student then rest + [n] else rest;
      OneMorePlace(rest, at, stack);
      OneMoreName(rest, StudentFuncs(stack[..n]), at, stack);
    }
  }

  lemma OneMorePlace(rest: seq<nat>, at: seq<nat>, stack: seq<Live>)
    requires stack != [] && StudentsAt(rest, stack[..|stack| - 1], 0)
    requires at == if stack[|stack| - 1].student then rest + [|stack| - 1] else rest
    ensures StudentsAt(at, stack, 0)
  {
    var n := |stack| - 1;
    forall k | 0 <= k < |rest| ensures rest[k] < n && stack[..n][rest[k]] == stack[rest[k]] {
      assert rest[k] in rest;
    }
    forall i: nat ensures i in at <==> i < |stack| && stack[i].student {
      assert i in rest <==> i < n && stack[..n][i].student;
      assert i in at <==> i in rest || (stack[n].student && i == n);
    }
  }

  lemma OneMoreName(rest: seq<nat>, funcs: seq<string>, at: seq<nat>, stack: seq<Live>)
    requires stack != [] && NamesOf(funcs, rest, stack[..|stack| - 1])
    requires at == if stack[|stack| - 1].student then rest + [|stack| - 1] else rest
    ensures NamesOf(if stack[|stack| - 1].student then funcs + [stack[|stack| - 1].func] else funcs, at, stack)
  {
  }

  lemma {:induction false} FirstCounts(x: Live, rest: seq<Live>)
    ensures |StudentFuncs([x] + rest)| == |StudentFuncs(rest)| + if x.student then 1 else 0
  {
    if rest != [] {
      var n := |rest| - 1;
      FirstCounts(x, rest[..n]);
      assert ([x] + rest)[..n + 1] == [x] + rest[..n];
    } else {
      assert [x] + rest == [x] && [x][..0] == [] && StudentFuncs([]) == [];
    }
  }

  /** The frame that leaves the innermost 25 when one more is entered is the student's. */
  predicate LosesOne(stack: seq<Live>) {
    |stack| >= 25 && stack[|stack| - 25].student
  }

  /** Entering a student's function is one level deeper, except when one of 25 frames gives way. */
  lemma OneDeeperUnless(stack: seq<Live>, f: Live)
    requires f.student
    ensures |Shown(stack + [f])| == |Shown(stack)| + if LosesOne(stack) then 0 else 1
  {
    var more := stack + [f];
    var now := more[|more| - Min(MAX_STACK, |more|)..];
    var before := stack[|stack| - Min(MAX_STACK, |stack|)..];
    if |stack| < 25 {
      assert now == more && before == stack && more[..|stack|] == stack;
    } else {
      FirstCounts(before[0], before[1..]);
      assert [before[0]] + before[1..] == before;
      assert now[..|now| - 1] == before[1..] && now[|now| - 1] == f;
    }
  }

  ghost predicate StackOk(stack: seq<Live>) {
    forall i, j | 0 <= i < j < |stack| ::
      stack[i].uid != stack[j].uid && (stack[i].key.Some? ==> stack[i].key != stack[j].key)
  }

  /** Frame `uid` is live with that key, and entering it gave a stack of that level. */
  ghost predicate LiveAt(stack: seq<Live>, uid: nat, key: Option<FrameKey>, level: nat) {
    exists i :: 0 <= i < |stack| && stack[i].uid == uid && stack[i].key == key && |Shown(stack[..i + 1])| == level
  }

  ghost predicate IsLive(stack: seq<Live>, uid: nat) {
    exists i :: 0 <= i < |stack| && stack[i].uid == uid
  }

  lemma PushLive(stack: seq<Live>, f: Live, uid: nat, key: Option<FrameKey>, level: nat)
    requires LiveAt(stack, uid, key, level)
    ensures LiveAt(stack + [f], uid, key, level)
  {
    var i :| 0 <= i < |stack| && stack[i].uid == uid && stack[i].key == key && |Shown(stack[..i + 1])| == level;
    assert (stack + [f])[..i + 1] == stack[..i + 1];
    assert (stack + [f])[i] == stack[i];
  }

  lemma PopLive(stack: seq<Live>, uid: nat, key: Option<FrameKey>, level: nat)
    requires LiveAt(stack, uid, key, level) && stack[|stack| - 1].uid != uid
    ensures LiveAt(stack[..|stack| - 1], uid, key, level)
  {
    var i :| 0 <= i < |stack| && stack[i].uid == uid && stack[i].key == key && |Shown(stack[..i + 1])| == level;
    assert stack[..|stack| - 1][..i + 1] == stack[..i + 1];
    assert stack[..|stack| - 1][i] == stack[i];
  }

  /** In one stack a key belongs to one frame. */
  lemma KeyIsIdentity(stack: seq<Live>, uid: nat, key: FrameKey, level: nat, i: nat)
    requires StackOk(stack) && LiveAt(stack, uid, Some(key), level) && i < |stack| && stack[i].key == Some(key)
    ensures stack[i].uid == uid
  {
  }

  /** In one stack a frame has one key. */
  lemma KeyOfFrame(stack: seq<Live>, uid: nat, key: Option<FrameKey>, level: nat, i: nat)
    requires StackOk(stack) && LiveAt(stack, uid, key, level) && i < |stack| && stack[i].uid == uid
    ensures stack[i].key == key
  {
  }

  // ---- the session ------------------------------------------------------------------------

  /** The last recorded step, as far as attribution is concerned. */
  datatype Recorded = Recorded(key: Option<FrameKey>)

  ghost predicate BreakpointOk<V>(d: Armed<V>, stack: seq<Live>, lastStack: seq<Live>, returned: map<nat, Option<V>>) {
    && (!d.fired ==> LiveAt(stack, d.uid, d.key, d.level))
    && LiveAt(lastStack, d.uid, d.key, d.level)
    && (d.fired ==> !IsLive(stack, d.uid) && d.uid in returned && returned[d.uid] == d.value)
  }

  class Session<V> {
    var stack: seq<Live>                  // the machine: live frames, outermost first
    var nextUid: nat
    var armed: seq<Armed<V>>              // the driver: `devolucoes`
    var prev: Option<seq<string>>         // `pilha_ant`
    var last: Option<Recorded>            // the last recorded step
    ghost var lastStack: seq<Live>        // the stack when it was recorded
    ghost var returned: map<nat, Option<V>>   // what every finished call handed back

    ghost predicate Valid()
      reads this
    {
      && StackOk(stack) && (forall i | 0 <= i < |stack| :: stack[i].uid < nextUid)
      && StackOk(lastStack) && (forall i | 0 <= i < |lastStack| :: lastStack[i].uid < nextUid)
      && (forall u | u in returned :: u < nextUid && !IsLive(stack, u))
      && Distinct(armed)
      && (forall d | d in armed :: BreakpointOk(d, stack, lastStack, returned))
      && (prev.None? <==> last.None?)
      && (prev.None? ==> armed == [])
      && (prev.Some? ==> prev.value == Shown(lastStack))
      && (prev.Some? ==> forall d | d in armed :: d.level <= |prev.value|)
      && (last.Some? ==> lastStack != [] && last.value.key == lastStack[|lastStack| - 1].key)
    }

    constructor ()
      ensures Valid() && stack == [] && armed == [] && last.None?
    {
      stack, nextUid, armed, prev, last := [], 0, [], None, None;
      lastStack, returned := [], map[];
    }

    /** The program calls: the new frame's key is not the key of a live frame. */
    method Call(func: string, student: bool, key: Option<FrameKey>)
      requires Valid()
      requires key.Some? ==> forall i | 0 <= i < |stack| :: stack[i].key != key
      modifies `stack, `nextUid
      ensures Valid() && stack == old(stack) + [Live(old(nextUid), func, student, key)]
    {
      var f := Live(nextUid, func, student, key);
      forall d | d in armed && !d.fired ensures LiveAt(stack + [f], d.uid, d.key, d.level) {
        assert BreakpointOk(d, stack, lastStack, returned);
        PushLive(stack, f, d.uid, d.key, d.level);
      }
      forall u | u in returned ensures !IsLive(stack + [f], u) {
        assert !IsLive(stack, u);
        assert forall i | 0 <= i < |stack| :: (stack + [f])[i].uid == stack[i].uid;
      }
      forall d | d in armed ensures BreakpointOk(d, stack + [f], lastStack, returned) {
        assert BreakpointOk(d, stack, lastStack, returned);
      }
      stack := stack + [f];
      nextUid := nextUid + 1;
    }

    /** The innermost call ends: its breakpoint fires with the value, or with None when the
        frame died without returning or the value has no known type. */
    method Return(value: Option<V>)
      requires Valid() && stack != []
      modifies `stack, `armed, `returned
      ensures Valid() && stack == old(stack)[..|old(stack)| - 1]
      ensures returned == old(returned)[old(stack)[|old(stack)| - 1].uid := value]
      ensures armed == Fire(old(armed), old(stack)[|old(stack)| - 1].uid, value)
    {
      hide Shown, LiveAt;
      var top := stack[|stack| - 1];
      ghost var rest := stack[..|stack| - 1];
      ghost var now := returned[top.uid := value];
      assert !IsLive(rest, top.uid);
      forall u | u in now ensures !IsLive(rest, u) {
        if u != top.uid {
          assert !IsLive(stack, u);
          assert forall i | 0 <= i < |rest| :: rest[i] == stack[i];
        }
      }
      ghost var fired := Fire(armed, top.uid, value);
      forall d | d in fired ensures BreakpointOk(d, rest, lastStack, now) {
        var i :| 0 <= i < |fired| && fired[i] == d;
        FiredOk(armed[i], stack, lastStack, returned, value);
      }
      assert forall i | 0 <= i < |armed| ::
               fired[i].uid == armed[i].uid && fired[i].level == armed[i].level && armed[i] in armed;
      armed := Fire(armed, top.uid, value);
      stack := stack[..|stack| - 1];
      returned := now;
    }

    /** Which breakpoint, of those that fired since the last recorded step, hands its value to
        that step: the one with the key of the step's innermost frame, else (`byKey` false)
        the only one, when no function repeats on the stack. */
    method Owner() returns (owner: Option<Armed<V>>, byKey: bool)
      requires Valid() && last.Some?
      // By key, the value is the one handed back by the innermost frame of the last step ...
      ensures byKey ==> owner.Some? && lastStack != [] &&
                        var inner := lastStack[|lastStack| - 1];
                        && owner.value.uid == inner.uid && !IsLive(stack, inner.uid)
                        && inner.uid in returned && owner.value.value == returned[inner.uid]
      // ... and that happens exactly when that frame was armed, has a key, and has ended.
      ensures byKey <==> last.value.key.Some? && EndedArmed(armed, lastStack)
      ensures owner.Some? ==> owner.value in armed && owner.value.fired
      ensures !byKey && owner.Some? ==> forall d | d in armed && d.fired :: d == owner.value
      // Otherwise it takes the only one that fired, unless the innermost function is on the stack twice.
      ensures !byKey ==> (owner.Some? <==> OnlyFired(armed) && !Repeats(prev.GetOr([])))
    {
      hide Shown, LiveAt, StackOk, Filter, Repeats;
      owner, byKey := None, false;
      var out := Filter(armed, (d: Armed<V>) => d.fired);
      var before := prev.GetOr([]);
      var repeated := Repeats(before);
      if out != [] && last.value.key.Some? {
        var key := last.value.key;
        var same := Filter(out, (d: Armed<V>) => d.key == key);
        SameKeyIsInnermost(armed, out, same, stack, lastStack, returned, key.value);
        if |same| == 1 {
          assert same[0] in same;
          assert BreakpointOk(same[0], stack, lastStack, returned);
          return Some(same[0]), true;
        }
      }
      assert out == [] ==> !EndedArmed(armed, lastStack);
      OneFired(armed, out);
      if |out| == 1 && !repeated {
        assert out[0] in out;
        OnlyOne(armed, out);
        owner := Some(out[0]);
      }
    }

    /** The fired breakpoints go; entering a deeper level arms the innermost frame; what was
        armed deeper than the current level goes too. */
    method Rearm(canArm: bool)
      requires Valid() && stack != []
      modifies `armed
      ensures Distinct(armed) && forall d | d in armed ::
                BreakpointOk(d, stack, stack, returned) && d.level <= |Shown(stack)|
      ensures forall d | d in armed :: !d.fired && (d in old(armed) || IsNew(d, stack))
      ensures forall d | d in old(armed) && !d.fired && d.level <= |Shown(stack)| :: d in armed
      ensures canArm && Deeper(prev, stack) ==> exists d :: d in armed && IsNew(d, stack)
      ensures !(canArm && Deeper(prev, stack)) ==> forall d | d in armed :: d in old(armed)
    {
      hide Shown, BreakpointOk, StackOk, IsLive, IsNew, Distinct, Filter;
      var level := |Shown(stack)|;
      var rest := Filter(armed, (d: Armed<V>) => !d.fired);
      Unfired(armed, rest, stack, lastStack, returned);
      if prev.None? || level > |prev.value| {
        if canArm {
          ArmedBefore(rest, stack, lastStack, returned, if prev.Some? then |prev.value| else 0);
          var new_ := Armed(level, stack[|stack| - 1].uid, stack[|stack| - 1].key, false, None);
          NewIsOk(new_, stack, returned);
          DistinctAppend(rest, new_);
          rest := rest + [new_];
          assert new_ in rest;
        }
      }
      ghost var was := rest;
      armed := Filter(rest, (d: Armed<V>) => d.level <= level);
      NotDeeper(was, armed, level);
    }

    /** A stop in the student's file.  If a breakpoint fired since the last recorded step,
        that step becomes a return and may get a value; then the stop is recorded. */
    method Stop(canArm: bool) returns (owner: Option<Armed<V>>, byKey: bool, returns_: bool)
      requires Valid() && stack != [] && stack[|stack| - 1].student
      modifies `armed, `prev, `last, `lastStack
      ensures Valid() && lastStack == stack && prev == Some(Shown(stack))
              && last == Some(Recorded(stack[|stack| - 1].key))
      ensures returns_ <==> old(last).Some? && exists d :: d in old(armed) && d.fired
      ensures byKey ==> owner.Some? && old(lastStack) != [] &&
                        var inner := old(lastStack)[|old(lastStack)| - 1];
                        && owner.value.uid == inner.uid && !IsLive(stack, inner.uid)
                        && inner.uid in returned && owner.value.value == returned[inner.uid]
      ensures byKey <==> old(last).Some? && old(last).value.key.Some? && EndedArmed(old(armed), old(lastStack))
      ensures owner.Some? ==> owner.value in old(armed) && owner.value.fired
      ensures canArm && Deeper(old(prev), stack) ==> exists d :: d in armed && IsNew(d, stack)
      // A student's function called onto the recorded stack is armed, unless one of 25 frames gave way.
      ensures old(last).Some? && CalledOnto(old(lastStack), stack) ==>
                (InnerIsArmed(armed, stack) <==> canArm && !LosesOne(old(lastStack)))
    {
      hide Shown, LiveAt, StackOk, IsLive, EndedArmed, Deeper, IsNew, BreakpointOk, Distinct, OnlyFired,
           Repeats, Filter;
      hide CalledOnto, InnerIsArmed;
      ghost var called := last.Some? && CalledOnto(lastStack, stack);
      if called {
        NotYetArmed(armed, stack, lastStack, returned);
      }
      ghost var was := armed;
      owner, byKey, returns_ := None, false, false;
      if last.Some? {
        var out := Filter(armed, (d: Armed<V>) => d.fired);
        returns_ := out != [];
        assert out != [] ==> out[0] in out;
        owner, byKey := Owner();
      }
      Rearm(canArm);
      if called {
        CallIsArmed(was, armed, prev, lastStack, stack, canArm);
      }
      prev := Some(Shown(stack));
      last := Some(Recorded(stack[|stack| - 1].key));
      lastStack := stack;
    }
  }

  ghost predicate CalledOnto(lastStack: seq<Live>, stack: seq<Live>) {
    stack != [] && stack[|stack| - 1].student && stack[..|stack| - 1] == lastStack
  }

  ghost predicate InnerIsArmed<V>(armed: seq<Armed<V>>, stack: seq<Live>) {
    stack != [] && exists d ::
      d in armed && d.uid == stack[|stack| - 1].uid && d.key == stack[|stack| - 1].key && !d.fired
  }

  /** A frame that was not on the recorded stack is not armed. */
  lemma NotYetArmed<V>(armed: seq<Armed<V>>, stack: seq<Live>, lastStack: seq<Live>, returned: map<nat, Option<V>>)
    requires CalledOnto(lastStack, stack) && StackOk(stack)
    requires forall d | d in armed :: BreakpointOk(d, stack, lastStack, returned)
    ensures forall d | d in armed :: d.uid != stack[|stack| - 1].uid
  {
    hide Shown;
    forall d | d in armed ensures d.uid != stack[|stack| - 1].uid {
      assert LiveAt(lastStack, d.uid, d.key, d.level);
      assert forall i | 0 <= i < |lastStack| :: lastStack[i] == stack[i];
    }
  }

  lemma CallIsArmed<V>(was: seq<Armed<V>>, armed: seq<Armed<V>>, prev: Option<seq<string>>, lastStack: seq<Live>,
                       stack: seq<Live>, canArm: bool)
    requires CalledOnto(lastStack, stack) && prev == Some(Shown(lastStack))
    requires forall d | d in was :: d.uid != stack[|stack| - 1].uid
    requires canArm && Deeper(prev, stack) ==> exists d :: d in armed && IsNew(d, stack)
    requires !(canArm && Deeper(prev, stack)) ==> forall d | d in armed :: d in was
    ensures InnerIsArmed(armed, stack) <==> canArm && !LosesOne(lastStack)
  {
    hide Shown;
    OneDeeperUnless(lastStack, stack[|stack| - 1]);
    assert stack == lastStack + [stack[|stack| - 1]];
  }

  /** A call that is stopped in and returns before the next stop: whatever the value, the next stop
      gives it, by its key, to the step recorded inside the call. */
  method CallThenReturn<V>(s: Session<V>, func: string, key: FrameKey, v: Option<V>, canArm: bool)
      returns (value: Option<V>, byKey: bool)
    requires s.Valid() && s.last.Some? && s.stack == s.lastStack && !LosesOne(s.stack)
    requires s.stack != [] && s.stack[|s.stack| - 1].student
    requires forall i | 0 <= i < |s.stack| :: s.stack[i].key != Some(key)
    modifies s
    ensures byKey && value == v && s.Valid() && s.stack == old(s.stack)
  {
    hide Session.Valid, IsLive, EndedArmed, InnerIsArmed;
    ghost var was := s.stack;
    s.Call(func, true, Some(key));
    assert CalledOnto(was, s.stack);
    var _, _, _ := s.Stop(true);
    ghost var armed, stack := s.armed, s.stack;
    s.Return(v);
    FiredIsEnded(armed, s.armed, stack, v);
    var owner, byKey', returns_ := s.Stop(canArm);
    byKey := byKey';
    value := if owner.Some? then owner.value.value else None;
  }

  lemma FiredIsEnded<V>(armed: seq<Armed<V>>, now: seq<Armed<V>>, stack: seq<Live>, v: Option<V>)
    requires InnerIsArmed(armed, stack) && now == Fire(armed, stack[|stack| - 1].uid, v)
    ensures EndedArmed(now, stack)
  {
    var d :| d in armed && d.uid == stack[|stack| - 1].uid && d.key == stack[|stack| - 1].key && !d.fired;
    var i :| 0 <= i < |armed| && armed[i] == d;
    assert now[i] == d.(fired := true, value := v) && now[i] in now;
  }

  /** One breakpoint fired and no other did. */
  ghost predicate OnlyFired<V>(armed: seq<Armed<V>>) {
    exists d :: d in armed && d.fired && forall e | e in armed && e.fired :: e == d
  }

  lemma OneFired<V>(armed: seq<Armed<V>>, out: seq<Armed<V>>)
    requires Distinct(armed) && out == Filter(armed, (d: Armed<V>) => d.fired)
    ensures |out| == 1 <==> OnlyFired(armed)
  {
    FilterDistinct(armed, (d: Armed<V>) => d.fired);
    if |out| == 1 {
      OnlyOne(armed, out);
      assert out[0] in out;
    }
    if OnlyFired(armed) {
      var d :| d in armed && d.fired && forall e | e in armed && e.fired :: e == d;
      assert d in out;
      if |out| > 1 {
        TwoDiffer(out);
      }
    }
  }

  /** The innermost function of a snapshot is there a second time. */
  lemma RepeatsMeans(funcs: seq<string>)
    ensures Repeats(funcs) <==> exists i :: 0 <= i < |funcs| - 1 && funcs[i] == funcs[|funcs| - 1]
  {
    if funcs != [] {
      var n := |funcs| - 1;
      CountsFilter(funcs, funcs[n]);
      assert funcs == funcs[..n] + [funcs[n]];
      assert funcs[n] in funcs[..n] <==> exists i :: 0 <= i < n && funcs[i] == funcs[n];
    }
  }

  lemma {:induction false} CountsFilter(funcs: seq<string>, x: string)
    ensures |Filter(funcs, (f: string) => f == x)| == multiset(funcs)[x]
  {
    if funcs != [] {
      var n := |funcs| - 1;
      CountsFilter(funcs[..n], x);
      assert funcs == funcs[..n] + [funcs[n]];
    }
  }

  /** The innermost function of a snapshot is on its stack more than once. */
  predicate Repeats(funcs: seq<string>) {
    funcs != [] && |Filter(funcs, (f: string) => f == funcs[|funcs| - 1])| > 1
  }

  /** The innermost frame of the last step was armed and has ended. */
  ghost predicate EndedArmed<V>(armed: seq<Armed<V>>, lastStack: seq<Live>) {
    lastStack != [] && exists d :: d in armed && d.fired && d.uid == lastStack[|lastStack| - 1].uid
  }

  predicate Deeper(prev: Option<seq<string>>, stack: seq<Live>) {
    prev.None? || |Shown(stack)| > |prev.value|
  }

  lemma TwoDiffer<V>(xs: seq<Armed<V>>)
    requires Distinct(xs) && |xs| > 1
    ensures exists a, b :: a in xs && b in xs && a.uid != b.uid
  {
    assert xs[0] in xs && xs[1] in xs;
  }

  lemma UnfiredStay<V>(armed: seq<Armed<V>>, stack: seq<Live>, lastStack: seq<Live>, returned: map<nat, Option<V>>)
    requires forall d | d in armed :: BreakpointOk(d, stack, lastStack, returned)
    ensures forall d | d in armed && !d.fired :: BreakpointOk(d, stack, stack, returned)
  {
    hide LiveAt, IsLive;
  }

  lemma Unfired<V>(armed: seq<Armed<V>>, rest: seq<Armed<V>>, stack: seq<Live>, lastStack: seq<Live>,
                   returned: map<nat, Option<V>>)
    requires Distinct(armed) && rest == Filter(armed, (d: Armed<V>) => !d.fired)
    requires forall d | d in armed :: BreakpointOk(d, stack, lastStack, returned)
    ensures Distinct(rest) && |rest| <= |armed|
    ensures forall d | d in rest :: d in armed && !d.fired
    ensures forall d | d in armed && !d.fired :: d in rest
    ensures forall d | d in rest ::
              BreakpointOk(d, stack, lastStack, returned) && BreakpointOk(d, stack, stack, returned)
  {
    hide BreakpointOk;
    FilterDistinct(armed, (d: Armed<V>) => !d.fired);
    UnfiredStay(armed, stack, lastStack, returned);
  }

  lemma NotDeeper<V>(rest: seq<Armed<V>>, kept: seq<Armed<V>>, level: nat)
    requires Distinct(rest) && kept == Filter(rest, (d: Armed<V>) => d.level <= level)
    ensures Distinct(kept) && forall d | d in rest && d.level <= level :: d in kept
    ensures forall d | d in kept :: d in rest && d.level <= level
  {
    FilterDistinct(rest, (d: Armed<V>) => d.level <= level);
  }

  lemma NewIsOk<V>(d: Armed<V>, stack: seq<Live>, returned: map<nat, Option<V>>)
    requires stack != [] && d == Armed(|Shown(stack)|, stack[|stack| - 1].uid, stack[|stack| - 1].key, false, None)
    ensures IsNew(d, stack) && BreakpointOk(d, stack, stack, returned) && !d.fired
  {
    hide Shown;
    TopIsLive(stack, stack[|stack| - 1]);
  }

  lemma DistinctAppend<V>(xs: seq<Armed<V>>, d: Armed<V>)
    requires Distinct(xs) && forall x | x in xs :: x.uid != d.uid
    ensures Distinct(xs + [d])
  {
    assert forall i | 0 <= i < |xs| :: xs[i] in xs;
  }

  /** The breakpoint just armed on the innermost frame. */
  ghost predicate IsNew<V>(d: Armed<V>, stack: seq<Live>)
    requires stack != []
  {
    d == Armed(|Shown(stack)|, stack[|stack| - 1].uid, stack[|stack| - 1].key, false, d.value) && d.value.None?
  }

  lemma FiredOk<V>(d: Armed<V>, stack: seq<Live>, lastStack: seq<Live>, returned: map<nat, Option<V>>, value: Option<V>)
    requires stack != [] && StackOk(stack) && BreakpointOk(d, stack, lastStack, returned)
    ensures var top, rest := stack[|stack| - 1], stack[..|stack| - 1];
            BreakpointOk(if d.uid == top.uid && !d.fired then d.(fired := true, value := value) else d,
                         rest, lastStack, returned[top.uid := value])
  {
    hide Shown;
    var top, rest := stack[|stack| - 1], stack[..|stack| - 1];
    if d.uid != top.uid && !d.fired {
      PopLive(stack, d.uid, d.key, d.level);
    }
    if d.fired {
      assert top.uid != d.uid by {
        assert !IsLive(stack, d.uid);
      }
      assert forall i | 0 <= i < |rest| :: rest[i] == stack[i];
    }
  }

  lemma TopIsLive(stack: seq<Live>, top: Live)
    requires stack != [] && top == stack[|stack| - 1]
    ensures LiveAt(stack, top.uid, top.key, |Shown(stack)|)
  {
    hide Shown;
    assert stack[..|stack|] == stack;
  }

  /** Among the fired breakpoints, those with the key of the last step's innermost frame
      belong to that frame, and there is at most one. */
  lemma SameKeyIsInnermost<V>(armed: seq<Armed<V>>, out: seq<Armed<V>>, same: seq<Armed<V>>,
                              stack: seq<Live>, lastStack: seq<Live>, returned: map<nat, Option<V>>, key: FrameKey)
    requires Distinct(armed) && StackOk(lastStack) && lastStack != [] && lastStack[|lastStack| - 1].key == Some(key)
    requires forall d | d in armed :: BreakpointOk(d, stack, lastStack, returned)
    requires out == Filter(armed, (d: Armed<V>) => d.fired) && same == Filter(out, (d: Armed<V>) => d.key == Some(key))
    ensures forall d | d in same :: d in armed && d.fired && d.uid == lastStack[|lastStack| - 1].uid
    ensures |same| == 1 <==> exists d :: d in armed && d.fired && d.uid == lastStack[|lastStack| - 1].uid
  {
    hide Shown, Filter;
    var n := |lastStack| - 1;
    FilterDistinct(armed, (d: Armed<V>) => d.fired);
    FilterDistinct(out, (d: Armed<V>) => d.key == Some(key));
    forall d | d in same ensures d in armed && d.fired && d.uid == lastStack[n].uid {
      assert d in out && d.key == Some(key);
      assert BreakpointOk(d, stack, lastStack, returned);
      KeyIsIdentity(lastStack, d.uid, key, d.level, n);
    }
    hide StackOk;
    if |same| > 1 {
      TwoDiffer(same);
    }
    hide Distinct;
    assert |same| == 1 ==> same[0] in same;
    forall d | d in armed && d.fired && d.uid == lastStack[n].uid ensures d in same {
      assert BreakpointOk(d, stack, lastStack, returned);
      KeyOfFrame(lastStack, d.uid, d.key, d.level, n);
    }
  }

  lemma OnlyOne<V>(armed: seq<Armed<V>>, out: seq<Armed<V>>)
    requires out == Filter(armed, (d: Armed<V>) => d.fired) && |out| == 1
    ensures forall d | d in armed && d.fired :: d == out[0]
  {
    assert forall d | d in armed && d.fired :: d in out;
  }

  /** A frame is armed once: a breakpoint already armed on the innermost frame has its level,
      and the levels of all armed breakpoints are at most that of the last stop. */
  lemma ArmedBefore<V>(armed: seq<Armed<V>>, stack: seq<Live>, lastStack: seq<Live>,
                       returned: map<nat, Option<V>>, prevLevel: nat)
    requires stack != [] && StackOk(stack) && (armed == [] || |Shown(stack)| > prevLevel)
    requires forall d | d in armed :: !d.fired && d.level <= prevLevel && BreakpointOk(d, stack, lastStack, returned)
    ensures forall d | d in armed :: d.uid != stack[|stack| - 1].uid
  {
    hide Shown;
    assert stack[..|stack|] == stack;
    forall d | d in armed ensures d.uid != stack[|stack| - 1].uid {
      assert LiveAt(stack, d.uid, d.key, d.level);
    }
  }
}
