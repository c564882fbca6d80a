// The task ring of system/task.h by position: identifiers, sleep counters, and who runs.
module Schedule {
  import opened Machine

  /** Position 0 is task_main; the successor of the last position is position 0. */
  datatype State = State(ids: seq<word>, sleeps: seq<word>, cur: nat, lid: word)

  ghost predicate Sound(s: State) {
    && 0 < |s.ids| == |s.sleeps| && s.cur < |s.ids|
    && (forall i, j :: 0 <= i < j < |s.ids| ==> s.ids[i] < s.ids[j])
    && s.ids[|s.ids| - 1] <= s.lid
  }

  function After(i: nat, n: nat): nat { if i + 1 < n then i + 1 else 0 }

  /** task_yield: the next task runs, unless it sleeps; then its counter drops by one. */
  function Yield(s: State): State
    requires s.cur < |s.ids| == |s.sleeps|
  {
    var j := After(s.cur, |s.ids|);
    if j == s.cur then s
    else if s.sleeps[j] > 0 then s.(sleeps := s.sleeps[j := s.sleeps[j] - 1])
    else s.(cur := j)
  }

  /** task_spawn, up to its final yield: the new task goes last. */
  function Enter(s: State, sleep: word): State
    requires s.lid as int + 1 < TWO32
  {
    s.(ids := s.ids + [s.lid + 1], sleeps := s.sleeps + [sleep], lid := s.lid + 1)
  }

  function Spawn(s: State, sleep: word): State
    requires Sound(s) && s.lid as int + 1 < TWO32
  {
    Yield(Enter(s, sleep))
  }

  function Without<T>(xs: seq<T>, i: nat): seq<T>
    requires i < |xs|
  {
    xs[..i] + xs[i + 1..]
  }

  /** task_kill of a task other than task_main, which runs next. */
  function Kill(s: State, i: nat): State
    requires 0 < i < |s.ids| == |s.sleeps|
  {
    s.(ids := Without(s.ids, i), sleeps := Without(s.sleeps, i), cur := 0)
  }

  function Sleep(s: State, i: nat, ticks: word): State
    requires i < |s.sleeps|
  {
    s.(sleeps := s.sleeps[i := ticks])
  }

  /**
    What one yield does. The task after the running one, if there is another, either runs next or, if it
    sleeps, loses one tick; every other counter, the yielding task's own included, stays as it was.
   */
  lemma YieldEffect(s: State)
    requires s.cur < |s.ids| == |s.sleeps|
    ensures var u, n := Yield(s), |s.ids|;
      var j := if s.cur + 1 < n then s.cur + 1 else 0;
      && u.ids == s.ids && u.lid == s.lid && |u.sleeps| == n
      && (n == 1 ==> u == s)
      && (n > 1 && s.sleeps[j] > 0 ==> u.cur == s.cur && u.sleeps[j] as int == s.sleeps[j] as int - 1)
      && (n > 1 && s.sleeps[j] == 0 ==> u.cur == j && u.sleeps[j] == 0)
      && forall k :: 0 <= k < n && k != j ==> u.sleeps[k] == s.sleeps[k]
  {
  }

  /** What task_spawn does: the new task is last with the next identifier, and the caller has yielded once. */
  lemma SpawnEffect(s: State, sleep: word)
    requires Sound(s) && s.lid as int + 1 < TWO32
    ensures var u, n := Spawn(s, sleep), |s.ids|;
      var j, ticks := s.cur + 1, s.sleeps + [sleep];
      && u.ids == s.ids + [s.lid + 1] && u.lid as int == s.lid as int + 1 && |u.sleeps| == n + 1
      && (ticks[j] > 0 ==> u.cur == s.cur && u.sleeps == ticks[j := ticks[j] - 1])
      && (ticks[j] == 0 ==> u.cur == j && u.sleeps == ticks)
  {
  }

  /** What task_kill does: the task's columns go, the others keep their order, and the main task runs. */
  lemma KillEffect(s: State, i: nat)
    requires 0 < i < |s.ids| == |s.sleeps|
    ensures Kill(s, i) ==
      State(s.ids[..i] + s.ids[i + 1..], s.sleeps[..i] + s.sleeps[i + 1..], 0, s.lid)
  {
  }

  /** What task_sleep does. */
  lemma SleepEffect(s: State, i: nat, ticks: word)
    requires i < |s.sleeps|
    ensures var u := Sleep(s, i, ticks);
      && u.ids == s.ids && u.cur == s.cur && u.lid == s.lid && |u.sleeps| == |s.sleeps| && u.sleeps[i] == ticks
      && forall k :: 0 <= k < |s.sleeps| && k != i ==> u.sleeps[k] == s.sleeps[k]
  {
  }

  // ---------------------------------------------------------------- runs

  datatype Op = SpawnOp(sleep: word) | KillOp(pid: word) | SleepOp(i: nat, ticks: word) | YieldOp

  /** The position of the task with identifier `pid`, or |ids|. */
  function Find(ids: seq<word>, pid: word): (i: nat)
    ensures i <= |ids| && (i < |ids| ==> ids[i] == pid) && forall j :: 0 <= j < i ==> ids[j] != pid
  {
    if ids == [] || ids[0] == pid then 0 else Find(ids[1..], pid) + 1
  }

  lemma FindAt(ids: seq<word>, pid: word, k: nat)
    requires k < |ids| && ids[k] == pid && forall j :: 0 <= j < k ==> ids[j] != pid
    ensures Find(ids, pid) == k
  {
  }

  ghost predicate Legal(s: State, op: Op) {
    Sound(s) && match op
    case SpawnOp(_) => s.lid as int + 1 < TWO32
    case KillOp(pid) => pid != s.ids[0]
    case SleepOp(i, _) => i < |s.ids|
    case YieldOp => true
  }

  ghost function Step(s: State, op: Op): State
    requires Legal(s, op)
  {
    match op
    case SpawnOp(sleep) => Spawn(s, sleep)
    case KillOp(pid) => var i := Find(s.ids, pid); if i < |s.ids| then Kill(s, i) else s
    case SleepOp(i, ticks) => Sleep(s, i, ticks)
    case YieldOp => Yield(s)
  }

  ghost predicate LegalRun(s: State, ops: seq<Op>)
    decreases |ops|
  {
    ops == [] || (Legal(s, ops[0]) && LegalRun(Step(s, ops[0]), ops[1..]))
  }

  ghost function Run(s: State, ops: seq<Op>): State
    requires LegalRun(s, ops)
    decreases |ops|
  {
    if ops == [] then s else Run(Step(s, ops[0]), ops[1..])
  }

  lemma StepSound(s: State, op: Op)
    requires Legal(s, op)
    ensures Sound(Step(s, op)) && Step(s, op).ids[0] == s.ids[0]
  {
    match op
    case SpawnOp(sleep) => YieldSound(Enter(s, sleep));
    case KillOp(pid) => if Find(s.ids, pid) < |s.ids| { KillSound(s, Find(s.ids, pid)); }
    case SleepOp(i, ticks) =>
    case YieldOp => YieldSound(s);
  }

  lemma YieldSound(s: State)
    requires Sound(s)
    ensures Sound(Yield(s)) && Yield(s).ids == s.ids
  {
  }

  lemma EnterSound(s: State, sleep: word)
    requires Sound(s) && s.lid as int + 1 < TWO32
    ensures Sound(Enter(s, sleep))
  {
  }

  lemma SleepSound(s: State, i: nat, ticks: word)
    requires Sound(s) && i < |s.sleeps|
    ensures Sound(Sleep(s, i, ticks))
  {
  }

  lemma KillSound(s: State, i: nat)
    requires Sound(s) && 0 < i < |s.ids|
    ensures Sound(Kill(s, i)) && Kill(s, i).ids[0] == s.ids[0]
  {
    var t := Kill(s, i);
    assert forall j :: 0 <= j < |t.ids| ==> t.ids[j] == s.ids[if j < i then j else j + 1];
    if i < |s.ids| - 1 { assert t.ids[|t.ids| - 1] == s.ids[|s.ids| - 1]; }
  }

  /** Every reachable ring starts with the same main task and has strictly increasing identifiers. */
  lemma {:induction false} RunSound(s: State, ops: seq<Op>)
    requires Sound(s) && LegalRun(s, ops)
    ensures Sound(Run(s, ops)) && Run(s, ops).ids[0] == s.ids[0]
    decreases |ops|
  {
    if ops != [] {
      StepSound(s, ops[0]);
      RunSound(Step(s, ops[0]), ops[1..]);
    }
  }

  // ---------------------------------------------------------------- waiting

  ghost function YieldTimes(s: State, k: nat): State
    requires s.cur < |s.ids| == |s.sleeps|
    decreases k
  {
    if k == 0 then s else YieldTimes(Yield(s), k - 1)
  }

  /** Positions ahead of `cur` up to t, going round the ring. */
  function Distance(s: State, t: nat): nat
    requires s.cur < |s.ids| && t < |s.ids|
  {
    if s.cur <= t then t - s.cur else t + |s.ids| - s.cur
  }

  /** The sleep counters of the d positions after i. */
  function SleepAhead(sleeps: seq<word>, i: nat, d: nat): nat
    requires i < |sleeps|
    decreases d
  {
    if d == 0 then 0
    else var j := After(i, |sleeps|); sleeps[j] as int + SleepAhead(sleeps, j, d - 1)
  }

  /** Yields until t runs. */
  function Waiting(s: State, t: nat): nat
    requires s.cur < |s.ids| == |s.sleeps| && t < |s.ids|
  {
    Distance(s, t) + SleepAhead(s.sleeps, s.cur, Distance(s, t))
  }

  /** Lowering a counter inside the stretch lowers the sum by one; outside it, by nothing. */
  lemma {:induction false} SleepAheadUpdate(sleeps: seq<word>, i: nat, d: nat, j: nat, x: word)
    requires i < |sleeps| && j < |sleeps| && d < |sleeps|
    requires (if i < j then j - i else j + |sleeps| - i) > d
    ensures SleepAhead(sleeps[j := x], i, d) == SleepAhead(sleeps, i, d)
    decreases d
  {
    if d > 0 {
      SleepAheadUpdate(sleeps, After(i, |sleeps|), d - 1, j, x);
    }
  }

  /** While another task runs, each yield brings t exactly one step closer. */
  lemma YieldApproaches(s: State, t: nat)
    requires s.cur < |s.ids| == |s.sleeps| && t < |s.ids| && t != s.cur
    ensures Waiting(s, t) > 0
    ensures var u := Yield(s); u.cur < |u.ids| == |u.sleeps| == |s.ids| && Waiting(u, t) == Waiting(s, t) - 1
  {
    var n, j, d := |s.ids|, After(s.cur, |s.ids|), Distance(s, t);
    assert SleepAhead(s.sleeps, s.cur, d) == s.sleeps[j] as int + SleepAhead(s.sleeps, j, d - 1);
    if s.sleeps[j] > 0 {
      var u := Yield(s);
      SleepAheadUpdate(s.sleeps, j, d - 1, j, s.sleeps[j] - 1);
      assert SleepAhead(u.sleeps, s.cur, d) == u.sleeps[j] as int + SleepAhead(u.sleeps, j, d - 1);
    }
  }

  /**
    Exact waiting time: with nothing but yields, a task that is not running first runs after
    exactly (its distance round the ring) + (the sleep counters from the next task up to it) yields.
   */
  lemma {:induction false} ExactWait(s: State, t: nat, k: nat)
    requires s.cur < |s.ids| == |s.sleeps| && t < |s.ids| && t != s.cur && k <= Waiting(s, t)
    ensures var u := YieldTimes(s, k); u.cur == t <==> k == Waiting(s, t)
    decreases k
  {
    YieldApproaches(s, t);
    var u := Yield(s);
    if k > 0 {
      if u.cur == t {
        assert Waiting(u, t) == 0;
      } else {
        ExactWait(u, t, k - 1);
      }
    }
  }

  // ---------------------------------------------------------------- coming back

  function SumOf(sleeps: seq<word>, lo: nat, hi: nat): nat
    requires lo <= hi <= |sleeps|
  {
    if lo == hi then 0 else SumOf(sleeps, lo, hi - 1) + sleeps[hi - 1] as int
  }

  lemma {:induction false} SumFront(sleeps: seq<word>, lo: nat, hi: nat)
    requires lo < hi <= |sleeps|
    ensures SumOf(sleeps, lo, hi) == sleeps[lo] as int + SumOf(sleeps, lo + 1, hi)
  {
    if lo + 1 < hi { SumFront(sleeps, lo, hi - 1); }
  }

  lemma {:induction false} SumSplit(sleeps: seq<word>, lo: nat, mid: nat, hi: nat)
    requires lo <= mid <= hi <= |sleeps|
    ensures SumOf(sleeps, lo, hi) == SumOf(sleeps, lo, mid) + SumOf(sleeps, mid, hi)
  {
    if mid < hi { SumSplit(sleeps, lo, mid, hi - 1); }
  }

  /** The counters after position i, to the end of the ring and on from position 0. */
  lemma {:induction false} SleepAheadSum(sleeps: seq<word>, i: nat, d: nat)
    requires i < |sleeps| && d <= |sleeps|
    ensures SleepAhead(sleeps, i, d) ==
      if i + d < |sleeps| then SumOf(sleeps, i + 1, i + 1 + d)
      else SumOf(sleeps, i + 1, |sleeps|) + SumOf(sleeps, 0, i + 1 + d - |sleeps|)
    decreases d
  {
    if d > 0 {
      SleepAheadSum(sleeps, After(i, |sleeps|), d - 1);
      if i + 1 < |sleeps| { SumFront(sleeps, i + 1, if i + d < |sleeps| then i + 1 + d else |sleeps|); }
      if i + 1 == |sleeps| && d > 1 { SumFront(sleeps, 0, d); }
    }
  }

  /** Yields until the running task runs again: one for each task, and all the counters, its own included. */
  function Round(s: State): nat
    requires |s.ids| == |s.sleeps|
  {
    |s.ids| + SumOf(s.sleeps, 0, |s.sleeps|)
  }

  /** While the next task sleeps, the running task stays. */
  lemma {:induction false} StaysFor(s: State, k: nat)
    requires s.cur < |s.ids| == |s.sleeps| && |s.ids| > 1
    requires k <= s.sleeps[After(s.cur, |s.ids|)] as int
    ensures var j := After(s.cur, |s.ids|);
      YieldTimes(s, k) == s.(sleeps := s.sleeps[j := s.sleeps[j] - k])
    decreases k
  {
    if k > 0 {
      StaysFor(Yield(s), k - 1);
    }
  }

  lemma {:induction false} YieldTimesAdd(s: State, a: nat, b: nat)
    requires s.cur < |s.ids| == |s.sleeps|
    ensures var u := YieldTimes(s, a);
      u.cur < |u.ids| == |u.sleeps| && YieldTimes(u, b) == YieldTimes(s, a + b)
    decreases a
  {
    if a > 0 { YieldTimesAdd(Yield(s), a - 1, b); }
  }

  /**
    Return time: with nothing but yields, the running task stays while its successor sleeps, and runs
    again after exactly (the number of tasks) + (the sum of all sleep counters) yields, not before.
   */
  lemma {:induction false} ReturnWait(s: State, k: nat)
    requires s.cur < |s.ids| == |s.sleeps| && |s.ids| > 1 && k <= Round(s)
    ensures var j := if s.cur + 1 < |s.ids| then s.cur + 1 else 0;
      YieldTimes(s, k).cur == s.cur <==> k <= s.sleeps[j] as int || k == Round(s)
  {
    var n, t := |s.ids|, s.cur;
    var j := After(t, n);
    var m := s.sleeps[j] as int;
    RoundAhead(s);
    if k <= m {
      StaysFor(s, k);
    } else {
      StaysFor(s, m);
      var u := YieldTimes(s, m);
      assert u == s.(sleeps := s.sleeps[j := 0]);
      var v := Yield(u);
      assert v == u.(cur := j);
      YieldTimesAdd(s, m, k - m);
      assert YieldTimes(s, k) == YieldTimes(v, k - m - 1);
      assert Waiting(v, t) == Round(s) - m - 1;
      ExactWait(v, t, k - m - 1);
    }
  }

  /** Once the next task runs, the rest of the round is the waiting time of the task that yielded. */
  lemma {:induction false} RoundAhead(s: State)
    requires s.cur < |s.ids| == |s.sleeps| && |s.ids| > 1
    ensures var j := After(s.cur, |s.ids|);
      Waiting(s.(cur := j, sleeps := s.sleeps[j := 0]), s.cur) == Round(s) - s.sleeps[j] as int - 1
  {
    var n, t := |s.ids|, s.cur;
    var j := After(t, n);
    var v := s.(cur := j, sleeps := s.sleeps[j := 0]);
    assert Distance(v, t) == n - 1;
    SleepAheadUpdate(s.sleeps, j, n - 1, j, 0);
    SleepAheadSum(s.sleeps, t, n);
    SumSplit(s.sleeps, 0, t + 1, n);
    assert SleepAhead(s.sleeps, t, n) == s.sleeps[j] as int + SleepAhead(s.sleeps, j, n - 1);
  }
}
