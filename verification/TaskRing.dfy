// system/task.h: the circular doubly linked list of tasks and its round-robin scheduler.
// Saving and switching registers is abstracted away: what is kept is who runs next.
//
// tasking_init leaves task_main.prev unset, as here: `prev` inverts `next` exactly once some task
// has been spawned, and no operation reads it earlier.
module TaskRing {
  import opened Machine
  import opened Schedule

  class Task {
    var id: word
    var sleeptime: word
    var next: Task?
    var prev: Task?

    constructor ()
    {
      id, sleeptime := 0, 0;
      next, prev := null, null;
    }
  }

  /** The tasks of `ring` are distinct and linked in that order, back to the first. */
  ghost predicate Linked(ring: seq<Task>)
    reads ring`next, ring`prev
  {
    && (forall i, j :: 0 <= i < j < |ring| ==> ring[i] != ring[j])
    && (forall i {:trigger ring[i].next} :: 0 <= i < |ring| ==> ring[i].next == ring[After(i, |ring|)])
    && (forall i {:trigger ring[i].prev} :: 0 < i < |ring| ==> ring[i].prev == ring[i - 1])
  }

  /** The position of a task in a ring, or its length. */
  ghost function IndexOf(ring: seq<Task>, t: Task): (i: nat)
    ensures i <= |ring| && (t in ring <==> i < |ring|) && (i < |ring| ==> ring[i] == t)
  {
    if ring == [] || ring[0] == t then 0 else IndexOf(ring[1..], t) + 1
  }

  ghost function Ids(ring: seq<Task>): (ids: seq<word>)
    reads ring`id
    ensures |ids| == |ring| && forall i :: 0 <= i < |ring| ==> ids[i] == ring[i].id
  {
    if ring == [] then [] else [ring[0].id] + Ids(ring[1..])
  }

  ghost function Sleeps(ring: seq<Task>): (sleeps: seq<word>)
    reads ring`sleeptime
    ensures |sleeps| == |ring| && forall i :: 0 <= i < |ring| ==> sleeps[i] == ring[i].sleeptime
  {
    if ring == [] then [] else [ring[0].sleeptime] + Sleeps(ring[1..])
  }

  class Scheduler {
    const main: Task       // task_main
    var current: Task      // task_current
    var last: Task         // task_last
    var lid: word
    var skip: bool
    ghost var ring: seq<Task>

    ghost function Abstract(): State
      reads this, ring
    {
      State(Ids(ring), Sleeps(ring), IndexOf(ring, current), lid)
    }

    ghost predicate Valid()
      reads this, ring
    {
      && 0 < |ring| && ring[0] == main && main.id <= lid
      && Linked(ring)
      && last == ring[|ring| - 1]
      && !skip
      && Sound(Abstract())
      && (if lid == main.id then main.prev == null && |ring| == 1 else main.prev == last)
    }

    /** The task reached from task_main by k steps along `next`: once round the ring in order, then home. */
    ghost function Follow(k: nat): (t: Task)
      requires Valid() && k <= |ring|
      reads this, ring
      ensures t == if k < |ring| then ring[k] else main
    {
      hide Ids, Sleeps, IndexOf, Sound;
      if k == 0 then main
      else
        NextOf(k - 1);
        Follow(k - 1).next
    }

    /** `prev` inverts `next` all round the ring exactly once a task has been spawned. */
    ghost predicate PrevInvertsNext()
      requires Valid()
      reads this, ring
    {
      forall i {:trigger ring[i].next} :: 0 <= i < |ring| ==> ring[i].next != null && ring[i].next.prev == ring[i]
    }

    lemma PrevInvertsNextIff()
      requires Valid()
      ensures PrevInvertsNext() <==> lid != main.id
    {
      assert ring[0].next == ring[After(0, |ring|)];
    }

    /** tasking_init. */
    constructor (task: Task)
      requires task.prev == null
      modifies task
      ensures Valid() && main == task && ring == [task] && Abstract() == State([0], [0], 0, 0)
    {
      main, current, last := task, task, task;
      lid, skip := 0, false;
      ring := [task];
      new;
      task.sleeptime := 0;
      task.id := 0;
      task.next := task;
    }

    lemma CurrentPlace()
      requires Valid()
      ensures var i := IndexOf(ring, current);
        && i < |ring| && ring[i] == current && current.next == ring[After(i, |ring|)]
        && IndexOf(ring, ring[After(i, |ring|)]) == After(i, |ring|)
        && (ring[After(i, |ring|)] == current <==> After(i, |ring|) == i)
    {
      hide Ids, Sleeps, IndexOf;
      var i := IndexOf(ring, current);
      assert current.next == ring[After(i, |ring|)];
      IndexOfAt(ring, After(i, |ring|));
    }

    /** The columns of the ring are the sequences that hold its fields. */
    lemma ColumnsNow(ids: seq<word>, sleeps: seq<word>)
      requires |ids| == |sleeps| == |ring|
      requires forall k :: 0 <= k < |ring| ==> ids[k] == ring[k].id && sleeps[k] == ring[k].sleeptime
      ensures Ids(ring) == ids && Sleeps(ring) == sleeps
    {
      hide Ids, Sleeps;
    }

    /** task_yield. */
    method Yield()
      requires Valid()
      modifies `current, ring`sleeptime
      ensures Valid() && ring == old(ring) && Abstract() == Schedule.Yield(old(Abstract()))
    {
      hide Ids, Sleeps, IndexOf, Sound, Linked;
      if skip {
        return;
      }
      ghost var s, i := Abstract(), IndexOf(ring, current);
      CurrentPlace();
      YieldSound(s);
      if current.next == current {
        return;
      }
      ghost var j := After(i, |ring|);
      var prior := current;
      current := current.next;
      if current.sleeptime > 0 {
        current.sleeptime := current.sleeptime - 1;
        current := prior;
      }
      ColumnsNow(s.ids, if s.sleeps[j] > 0 then s.sleeps[j := s.sleeps[j] - 1] else s.sleeps);
      assert Abstract() == Schedule.Yield(s);
    }

    /** task_sleep. */
    method Sleep(task: Task, ticks: word)
      requires Valid() && task in ring
      modifies task`sleeptime
      ensures Valid() && Abstract() == Schedule.Sleep(old(Abstract()), IndexOf(ring, task), ticks)
    {
      hide Ids, Sleeps, IndexOf, Linked, Sound;
      LinkedDistinct(ring);
      ghost var s, i := Abstract(), IndexOf(ring, task);
      task.sleeptime := ticks;
      assert Ids(ring) == s.ids;
      assert Sleeps(ring) == s.sleeps[i := ticks];
      SleepSound(s, i, ticks);
    }

    /** task_spawn of a task not in the ring: the task goes last, and the caller yields. */
    method Spawn(task: Task)
      requires Valid() && task !in ring && lid as int + 1 < TWO32
      modifies this, ring, task
      ensures Valid() && ring == old(ring) + [task] && lid != main.id
      ensures Abstract() == Schedule.Spawn(old(Abstract()), old(task.sleeptime))
    {
      hide Ids, Sleeps, IndexOf, Sound;
      CurrentPlace();
      Link(task);
      Yield();
    }

    /** Lines 33-52: everything in task_spawn but the final yield. */
    method Link(task: Task)
      requires Valid() && task !in ring && lid as int + 1 < TWO32
      modifies this, ring, task
      ensures Valid() && ring == old(ring) + [task] && lid != main.id
      ensures Abstract() == Enter(old(Abstract()), old(task.sleeptime))
    {
      hide Ids, Sleeps, IndexOf, Sound, Linked;
      ghost var s := Abstract();
      CurrentPlace();
      skip := true;  // tasking_pause
      lid := lid + 1;
      task.id := lid;
      Attach(task);
      skip := false;  // tasking_resume
      ring := ring + [task];
      assert Ids(ring) == s.ids + [s.lid + 1];
      assert Sleeps(ring) == s.sleeps + [task.sleeptime];
      LinkedDistinct(ring);
      IndexOfAt(ring, s.cur);
      EnterSound(s, task.sleeptime);
    }

    /** The pointer updates of task_spawn. */
    method Attach(task: Task)
      requires 0 < |ring| && ring[0] == main && Linked(ring) && last == ring[|ring| - 1] && task !in ring
      modifies `last, ring`next, ring`prev, task`next, task`prev
      ensures Linked(ring + [task]) && last == task && main.prev == task
    {
      ghost var r := ring;
      last.next := task;
      task.prev := last;
      last := task;
      task.next := main;
      main.prev := task;
      ghost var q := ring + [task];
      forall i | 0 <= i < |q| ensures q[i].next == q[After(i, |q|)] {
        assert i < |r| ==> old(r[i].next) == r[After(i, |r|)];
      }
      forall i | 0 < i < |q| ensures q[i].prev == q[i - 1] {
        assert i < |r| ==> old(r[i].prev) == r[i - 1];
      }
    }

    /** task_kill of a live task other than task_main. */
    method Kill(task: Task)
      requires Valid() && task in ring && task != main
      modifies this, ring
      ensures 0 < IndexOf(old(ring), task) < |old(ring)|
      ensures Valid() && ring == Without(old(ring), IndexOf(old(ring), task))
      ensures Abstract() == Schedule.Kill(old(Abstract()), IndexOf(old(ring), task))
    {
      hide Ids, Sleeps, IndexOf, Sound, Linked, Without;
      ghost var s, r, i := Abstract(), ring, IndexOf(ring, task);
      LinkedDistinct(r);
      WithoutAt(r, i);
      KillSound(s, i);
      ColumnsWithout(r, i);
      skip := true;  // tasking_pause
      Detach(task, i);
      current := main;
      skip := false;  // tasking_resume
      ring := Without(ring, i);
      ColumnsWithout(r, i);
      assert Ids(r) == s.ids && Sleeps(r) == s.sleeps;
      LinkedDistinct(ring);
      IndexOfAt(ring, 0);
      assert Abstract() == Schedule.Kill(s, i);
    }

    /** The pointer updates of task_kill. */
    method Detach(task: Task, ghost i: nat)
      requires Linked(ring) && 0 < i < |ring| && ring[i] == task
      requires ring[0] == main && last == ring[|ring| - 1] && main.prev == last
      modifies `last, ring`next, ring`prev
      ensures var q := Without(ring, i); Linked(q) && last == q[|q| - 1] == main.prev
    {
      hide Without;
      ghost var r, q, a := ring, Without(ring, i), After(i, |ring|);
      WithoutAt(r, i);
      assert task.next == r[a] && task.prev == r[i - 1];
      if task == last {
        last := task.prev;
      }
      task.prev.next := task.next;
      task.next.prev := task.prev;
      forall k | 0 <= k < |r| && k != i - 1 ensures r[k].next == r[After(k, |r|)] {
        assert old(r[k].next) == r[After(k, |r|)] && r[k] != r[i - 1];
      }
      forall k | 0 < k < |r| && k != a ensures r[k].prev == r[k - 1] {
        assert old(r[k].prev) == r[k - 1] && r[k] != r[a];
      }
      UnlinkedRest(r, i);
    }

    /** Once its neighbours skip position i, the remaining tasks are linked. */
    lemma UnlinkedRest(r: seq<Task>, i: nat)
      requires 0 < i < |r| && forall j, k :: 0 <= j < k < |r| ==> r[j] != r[k]
      requires forall k {:trigger r[k].next} :: 0 <= k < |r| && k != i - 1 ==> r[k].next == r[After(k, |r|)]
      requires r[i - 1].next == r[After(i, |r|)]
      requires forall k {:trigger r[k].prev} :: 0 < k < |r| && k != After(i, |r|) ==> r[k].prev == r[k - 1]
      requires r[After(i, |r|)].prev == r[i - 1]
      ensures Linked(Without(r, i))
    {
      hide Without;
      var q := Without(r, i);
      WithoutAt(r, i);
      forall j | 0 <= j < |q| ensures q[j].next == q[After(j, |q|)] {
        var k := if j < i then j else j + 1;
        assert q[j] == r[k];
      }
      forall j | 0 < j < |q| ensures q[j].prev == q[j - 1] {
        var k := if j < i then j else j + 1;
        assert q[j] == r[k];
      }
    }

    /** task_kill_pid, for any identifier but the main task's. */
    method KillPid(pid: word) returns (killed: bool)
      requires Valid() && pid != main.id
      modifies this, ring
      ensures var i := Find(old(Abstract()).ids, pid);
        && (killed <==> i < |old(ring)|)
        && (killed ==>
          i > 0 && Valid() && ring == Without(old(ring), i) && Abstract() == Schedule.Kill(old(Abstract()), i))
        && (!killed ==> Valid() && ring == old(ring) && Abstract() == old(Abstract()))
    {
      hide Ids, Sleeps, IndexOf, Sound, Linked;
      ghost var s, k := Abstract(), 0;
      var tmp, first := main, true;
      while first || tmp != main
        invariant Valid() && Abstract() == s && ring == old(ring) && k <= |ring|
        invariant tmp == (if k < |ring| then ring[k] else main) && (first <==> k == 0)
        invariant forall j :: 0 <= j < k ==> s.ids[j] != pid
        decreases |ring| - k
      {
        first := false;
        LinkedDistinct(ring);
        if tmp.id == pid {
          FindAt(s.ids, pid, k);
          IndexOfAt(ring, k);
          Kill(tmp);
          return true;
        }
        NextOf(k);
        tmp := tmp.next;
        k := k + 1;
      }
      LinkedDistinct(ring);
      return false;
    }

    lemma NextOf(k: nat)
      requires Valid() && k < |ring|
      ensures ring[k].next == ring[After(k, |ring|)]
    {
    }
  }

  /** Removing one position: the others keep their order. */
  lemma WithoutAt<T>(xs: seq<T>, i: nat)
    requires i < |xs|
    ensures |Without(xs, i)| == |xs| - 1
    ensures forall j :: 0 <= j < i ==> Without(xs, i)[j] == xs[j]
    ensures forall j :: i <= j < |xs| - 1 ==> Without(xs, i)[j] == xs[j + 1]
  {
  }

  lemma {:induction false} ColumnsWithout(ring: seq<Task>, i: nat)
    requires 0 < i < |ring|
    ensures Ids(Without(ring, i)) == Without(Ids(ring), i) && Sleeps(Without(ring, i)) == Without(Sleeps(ring), i)
    ensures Without(ring, i)[0] == ring[0]
  {
    hide Ids, Sleeps;
    WithoutAt(ring, i);
    WithoutAt(Ids(ring), i);
    WithoutAt(Sleeps(ring), i);
  }

  lemma LinkedDistinct(ring: seq<Task>)
    requires Linked(ring)
    ensures forall j, k :: 0 <= j < k < |ring| ==> ring[j] != ring[k]
  {
  }

  lemma {:induction false} IndexOfAt(ring: seq<Task>, i: nat)
    requires i < |ring| && forall j, k :: 0 <= j < k < |ring| ==> ring[j] != ring[k]
    ensures IndexOf(ring, ring[i]) == i
  {
    if i > 0 {
      IndexOfAt(ring[1..], i - 1);
    }
  }
}
