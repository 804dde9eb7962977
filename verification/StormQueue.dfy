/**
 * The task queue: run_one fires the front task, which may add tasks at the back while it is still
 * in front, and only then pops it.
 */
module StormQueue {
  import opened Numbers

  /** A task that adds these tasks when it fires. */
  datatype Task = Task(id: nat, spawns: seq<Task>)

  function Size(t: Task): nat { 1 + SizeAll(t.spawns) }

  /** Number of tasks in a forest, the ones still to be added included. */
  function SizeAll(f: seq<Task>): nat {
    if f == [] then 0 else Size(f[0]) + SizeAll(f[1..])
  }

  lemma SizeHead(f: seq<Task>)
    requires f != []
    ensures SizeAll(f) == 1 + SizeAll(f[0].spawns) + SizeAll(f[1..])
  {
    assert Size(f[0]) == 1 + SizeAll(f[0].spawns);
  }

  lemma {:induction false} SizeAllConcat(a: seq<Task>, b: seq<Task>)
    ensures SizeAll(a + b) == SizeAll(a) + SizeAll(b)
  {
    if a == [] {
      assert a + b == b;
    } else {
      assert (a + b)[1..] == a[1..] + b;
      SizeAllConcat(a[1..], b);
    }
  }

  /** The tasks that the tasks of one level add, in order. */
  function NextLevel(level: seq<Task>): (r: seq<Task>)
    ensures SizeAll(r) + |level| == SizeAll(level)
  {
    if level == [] then []
    else
      SizeAllConcat(level[0].spawns, NextLevel(level[1..]));
      level[0].spawns + NextLevel(level[1..])
  }

  /** All tasks of a forest, level by level. */
  function LevelOrder(forest: seq<Task>): seq<Task>
    decreases SizeAll(forest)
  {
    if forest == [] then [] else forest + LevelOrder(NextLevel(forest))
  }

  /** All tasks of a forest, each before those it adds. */
  function Tasks(forest: seq<Task>): multiset<Task>
    decreases SizeAll(forest)
  {
    if forest == [] then multiset{}
    else
      SizeHead(forest);
      multiset{forest[0]} + Tasks(forest[0].spawns) + Tasks(forest[1..])
  }

  lemma {:induction false} TasksConcat(a: seq<Task>, b: seq<Task>)
    ensures Tasks(a + b) == Tasks(a) + Tasks(b)
    decreases |a|
  {
    hide Size, SizeAll;
    if a == [] {
      assert a + b == b;
    } else {
      assert (a + b)[1..] == a[1..] + b && (a + b)[0] == a[0];
      TasksConcat(a[1..], b);
      Regroup(multiset{a[0]} + Tasks(a[0].spawns), Tasks(a[1..]), Tasks(b));
    }
  }

  lemma Occurrences(forest: seq<Task>)
    requires forest != []
    ensures multiset(forest) == multiset{forest[0]} + multiset(forest[1..])
  {
    assert forest == [forest[0]] + forest[1..];
  }

  lemma Exchange(x: multiset<Task>, y: multiset<Task>, z: multiset<Task>, u: multiset<Task>)
    ensures x + y + (z + u) == (x + z) + (y + u)
  {}

  lemma Regroup(x: multiset<Task>, y: multiset<Task>, z: multiset<Task>)
    ensures x + (y + z) == (x + y) + z
  {}

  lemma {:induction false} TasksByLevel(forest: seq<Task>)
    ensures Tasks(forest) == multiset(forest) + Tasks(NextLevel(forest))
    decreases |forest|
  {
    hide SizeAll, Size;
    if forest != [] {
      TasksByLevel(forest[1..]);
      TasksConcat(forest[0].spawns, NextLevel(forest[1..]));
      Occurrences(forest);
      Exchange(multiset{forest[0]}, Tasks(forest[0].spawns), multiset(forest[1..]), Tasks(NextLevel(forest[1..])));
    }
  }

  /** Level order lists every task of the forest exactly as often as it occurs. */
  lemma {:induction false} LevelOrderIsComplete(forest: seq<Task>)
    ensures multiset(LevelOrder(forest)) == Tasks(forest) && |LevelOrder(forest)| == SizeAll(forest)
    decreases SizeAll(forest)
  {
    if forest != [] {
      LevelOrderIsComplete(NextLevel(forest));
      TasksByLevel(forest);
    }
  }

  /** The order in which a queue fires when each task's additions go to the back. */
  function FiringOrder(q: seq<Task>): seq<Task>
    decreases SizeAll(q)
  {
    if q == [] then []
    else
      SizeHead(q);
      SizeAllConcat(q[1..], q[0].spawns);
      [q[0]] + FiringOrder(q[1..] + q[0].spawns)
  }

  lemma FiringStep(fired: seq<Task>, q: seq<Task>)
    requires q != []
    ensures SizeAll(q[1..] + q[0].spawns) < SizeAll(q)
    ensures fired + FiringOrder(q) == (fired + [q[0]]) + FiringOrder(q[1..] + q[0].spawns)
  {
    SizeHead(q);
    SizeAllConcat(q[1..], q[0].spawns);
    assert FiringOrder(q) == [q[0]] + FiringOrder(q[1..] + q[0].spawns);
    hide *;
    Reassociate(fired, [q[0]], FiringOrder(q[1..] + q[0].spawns));
  }

  lemma NothingToFire(fired: seq<Task>, q: seq<Task>)
    requires q == []
    ensures fired + FiringOrder(q) == fired
  {}

  /** While the first tasks of a queue fire, exactly what they add gathers behind the rest. */
  lemma {:induction false} FiringPastPrefix(a: seq<Task>, b: seq<Task>)
    ensures FiringOrder(a + b) == a + FiringOrder(b + NextLevel(a))
    decreases |a|
  {
    hide SizeAll, Size;
    if a == [] {
      assert a + b == b && b + NextLevel(a) == b;
    } else {
      var t, rest := a[0], a[1..];
      assert (a + b)[1..] + t.spawns == rest + (b + t.spawns);
      FiringPastPrefix(rest, b + t.spawns);
      assert (b + t.spawns) + NextLevel(rest) == b + NextLevel(a);
      assert a == [t] + rest;
    }
  }

  lemma {:induction false} FiringIsLevelOrder(forest: seq<Task>)
    ensures FiringOrder(forest) == LevelOrder(forest)
    decreases SizeAll(forest)
  {
    if forest != [] {
      FiringPastPrefix(forest, []);
      assert forest + [] == forest && [] + NextLevel(forest) == NextLevel(forest);
      FiringIsLevelOrder(NextLevel(forest));
    }
  }

  class TaskQueue {
    var q: seq<Task>
    ghost var fired: seq<Task>   // in the order of firing

    constructor ()
      ensures q == [] && fired == []
    {
      q, fired := [], [];
    }

    /** tq::add */
    method Add(t: Task)
      modifies this`q
      ensures q == old(q) + [t]
    {
      q := q + [t];
    }

    /** Task::fire: the body adds its tasks one after the other. */
    method Fire(t: Task)
      modifies this
      ensures q == old(q) + t.spawns && fired == old(fired) + [t]
    {
      fired := fired + [t];
      var i := 0;
      while i < |t.spawns|
        invariant i <= |t.spawns| && q == old(q) + t.spawns[..i] && fired == old(fired) + [t]
      {
        Add(t.spawns[i]);
        i := i + 1;
      }
    }

    /** run_one: the front is popped only after it has fired, and is still the task that fired. */
    method RunOne() returns (more: bool)
      modifies this
      ensures more == (old(q) != [])
      ensures more ==> q == old(q)[1..] + old(q)[0].spawns && fired == old(fired) + [old(q)[0]]
      ensures !more ==> q == old(q) && fired == old(fired)
    {
      if q == [] {
        return false;
      }
      Fire(q[0]);
      q := q[1..];
      more := true;
    }

    /** The inner loop of the scheduler: every task ever added fires exactly once, in level order. */
    method Drain()
      modifies this
      ensures q == [] && fired == old(fired) + LevelOrder(old(q))
      ensures multiset(fired) == multiset(old(fired)) + Tasks(old(q))
    {
      LevelOrderIsComplete(q);
      FiringIsLevelOrder(q);
      hide FiringOrder, LevelOrder, Tasks, SizeAll;
      var more := true;
      while more
        invariant fired + FiringOrder(q) == old(fired) + FiringOrder(old(q))
        invariant !more ==> q == []
        decreases SizeAll(q), more
      {
        if q != [] {
          FiringStep(fired, q);
        }
        more := RunOne();
      }
      NothingToFire(fired, q);
    }
  }
}
