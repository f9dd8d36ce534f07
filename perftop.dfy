/**
 * The CPU profiler of CPUProfiler/Part2/perftop.c: a tree of tasks keyed
 * by pid with their accumulated CPU time, a table of start times filled
 * by the entry probe of `pick_next_task_fair` and consumed by its return
 * probe, and the top-10 selection shown by /proc/perftop.
 */
module PerfTop {
  import opened Wrappers
  import RbTree

  /** The values of a u64. */
  type U64 = x: int | 0 <= x < 0x1_0000_0000_0000_0000

  /** u64 addition and subtraction wrap around. */
  function AddU64(a: U64, b: U64): (r: U64)
    ensures a + b < 0x1_0000_0000_0000_0000 ==> r == a + b
    ensures a + b >= 0x1_0000_0000_0000_0000 ==> r == a + b - 0x1_0000_0000_0000_0000
  {
    (a + b) % 0x1_0000_0000_0000_0000
  }

  function SubU64(a: U64, b: U64): (r: U64)
    ensures b <= a ==> r == a - b
    ensures a < b ==> r == a - b + 0x1_0000_0000_0000_0000
  {
    (a - b) % 0x1_0000_0000_0000_0000
  }

  /** Slots in the top-tasks array. */
  const TOP: nat := 10

  /** What a slot of the top-tasks array points to: a task's pid and its
      total CPU time. */
  datatype Task = Task(pid: int, time: U64)

  type Slots = seq<Option<Task>>

  // ---------------------------------------------------------------------
  // add_to_top_tasks

  /** Where the down-counting loop of `add_to_top_tasks` stops when it
      starts at slot `i`: the highest slot at or below `i` holding a task
      whose time is at least the new task's, or -1. */
  function StopSlot(s: Slots, t: Task, i: int): (j: int)
    requires |s| == TOP && -1 <= i < TOP
    ensures -1 <= j <= i
    ensures j >= 0 ==> s[j].Some? && s[j].value.time >= t.time
    ensures forall k :: j < k <= i ==> s[k].None? || s[k].value.time < t.time
    decreases i + 1
  {
    if i < 0 then -1
    else if s[i].Some? && s[i].value.time >= t.time then i
    else StopSlot(s, t, i - 1)
  }

  /** The array after `add_to_top_tasks(s, t)`: the new task goes right
      below the stop slot, the slots beneath shift down by one and the old
      slot 9 falls off; if the loop stops at slot 9 nothing changes. */
  function AddToTop(s: Slots, t: Task): (r: Slots)
    requires |s| == TOP
    ensures |r| == TOP
  {
    var i := StopSlot(s, t, TOP - 1);
    seq(TOP, k requires 0 <= k < TOP => if k <= i then s[k] else if k == i + 1 then Some(t) else s[k - 1])
  }

  /** The stop slot is the one slot at or below `i` that is heavy enough
      while every slot above it up to `i` is not. */
  lemma {:induction false} StopSlotIs(s: Slots, t: Task, i: int, j: int)
    requires |s| == TOP && -1 <= j <= i < TOP
    requires j >= 0 ==> s[j].Some? && s[j].value.time >= t.time
    requires forall k :: j < k <= i ==> s[k].None? || s[k].value.time < t.time
    ensures StopSlot(s, t, i) == j
    decreases i
  {
    if i > j {
      assert s[i].None? || s[i].value.time < t.time;
      StopSlotIs(s, t, i - 1, j);
    }
  }

  /** The placement rule: the slots above the new task are untouched, the
      new task sits right after the last one whose time is at least its
      own (so ties keep earlier entries ahead), every slot it passed holds
      a smaller time or nothing, and those slots move down by one. */
  lemma AddToTopPlacement(s: Slots, t: Task)
    requires |s| == TOP
    ensures var i := StopSlot(s, t, TOP - 1);
            var r := AddToTop(s, t);
            && (i == TOP - 1 <==> r == s && s[TOP - 1].Some? && s[TOP - 1].value.time >= t.time)
            && (i < TOP - 1 ==>
                 && r[i + 1] == Some(t)
                 && (forall k :: 0 <= k <= i ==> r[k] == s[k])
                 && (forall k :: i + 2 <= k < TOP ==> r[k] == s[k - 1])
                 && (forall k :: i < k < TOP ==> s[k].None? || s[k].value.time < t.time))
  {
    var i := StopSlot(s, t, TOP - 1);
    var r := AddToTop(s, t);
    if i < TOP - 1 {
      assert r[i + 1] == Some(t);
      assert r != s by {
        assert s[i + 1].None? || s[i + 1].value.time < t.time;
      }
    } else {
      assert forall k :: 0 <= k < TOP ==> r[k] == s[k];
      assert r == s;
    }
  }

  /** `add_to_top_tasks`, in place: the loop walks down from slot 9 while
      the slot is empty or holds a smaller time, moving each such slot one
      place down; then the new task goes below where it stopped. */
  method AddToTopTasks(a: array<Option<Task>>, t: Task)
    requires a.Length == TOP
    modifies a
    ensures a[..] == AddToTop(old(a[..]), t)
  {
    ghost var s := a[..];
    var i := ShiftDown(a, t);
    StopSlotIs(s, t, TOP - 1, i);
    if i < TOP - 1 {
      a[i + 1] := Some(t);
    }
    assert forall k :: 0 <= k < TOP ==> a[k] == AddToTop(s, t)[k];
    assert a[..] == AddToTop(s, t);
  }

  /** The loop of `add_to_top_tasks`: from slot 9 down, each slot that is
      empty or holds a smaller time moves one place down; it stops at -1
      or at the first slot whose time is at least `t`'s. */
  method ShiftDown(a: array<Option<Task>>, t: Task) returns (i: int)
    requires a.Length == TOP
    modifies a
    ensures -1 <= i < TOP
    ensures i >= 0 ==> old(a[i]).Some? && old(a[i]).value.time >= t.time
    ensures forall k :: i < k < TOP ==> old(a[k]).None? || old(a[k]).value.time < t.time
    ensures forall k :: 0 <= k <= i + 1 && k < TOP ==> a[k] == old(a[k])
    ensures forall k :: i + 2 <= k < TOP ==> a[k] == old(a[k - 1])
  {
    ghost var s := a[..];
    i := TOP - 1;
    while i >= 0 && (a[i].None? || a[i].value.time < t.time)
      invariant -1 <= i < TOP
      invariant forall k :: i < k < TOP ==> s[k].None? || s[k].value.time < t.time
      invariant forall k :: 0 <= k <= i + 1 && k < TOP ==> a[k] == s[k]
      invariant forall k :: i + 2 <= k < TOP ==> a[k] == s[k - 1]
      decreases i + 1
    {
      if i < TOP - 1 {
        a[i + 1] := a[i];
      }
      i := i - 1;
    }
  }

  // ---------------------------------------------------------------------
  // The array as a list of tasks

  /** The array whose first |p| slots hold the tasks `p` and whose other
      slots are empty. */
  function Fill(p: seq<Task>): (s: Slots)
    requires |p| <= TOP
    ensures |s| == TOP
    ensures forall k :: 0 <= k < |p| ==> s[k] == Some(p[k])
    ensures forall k :: |p| <= k < TOP ==> s[k].None?
  {
    seq(TOP, k requires 0 <= k < TOP => if k < |p| then Some(p[k]) else None)
  }

  /** Times never increase along the list. */
  ghost predicate Descending(p: seq<Task>)
  {
    forall i, j :: 0 <= i < j < |p| ==> p[i].time >= p[j].time
  }

  /** The array invariant of the top-tasks array: the occupied slots form
      a prefix, in non-increasing order of time. */
  ghost predicate TopValid(s: Slots)
  {
    exists p :: |p| <= TOP && Descending(p) && s == Fill(p)
  }

  /** How many tasks of `p` stay ahead of `t`: everything up to the last
      task whose time is at least `t`'s. */
  function Ahead(p: seq<Task>, t: Task): (k: nat)
    ensures k <= |p|
    ensures k > 0 ==> p[k - 1].time >= t.time
    ensures forall j :: k <= j < |p| ==> p[j].time < t.time
  {
    if p == [] then 0
    else if p[|p| - 1].time >= t.time then |p|
    else Ahead(p[..|p| - 1], t)
  }

  /** The list `p` with `t` inserted after the tasks ahead of it. */
  function Inserted(p: seq<Task>, t: Task): (u: seq<Task>)
    ensures |u| == |p| + 1
    ensures multiset(u) == multiset(p) + multiset{t}
  {
    var k := Ahead(p, t);
    assert p == p[..k] + p[k..];
    p[..k] + [t] + p[k..]
  }

  /** Inserting `t` into the list `p` the way `add_to_top_tasks` does:
      after the tasks ahead of it, keeping at most ten. */
  function InsertTop(p: seq<Task>, t: Task): (q: seq<Task>)
    requires |p| <= TOP
    ensures |q| == if |p| < TOP then |p| + 1 else TOP
  {
    var u := Inserted(p, t);
    if |u| <= TOP then u else u[..TOP]
  }

  /** The stop slot of the array loop, on a filled array, is the last
      task ahead of `t`. */
  lemma {:induction false} StopSlotFill(p: seq<Task>, t: Task, i: int)
    requires |p| <= TOP && -1 <= i < TOP
    ensures StopSlot(Fill(p), t, i) == Ahead(p[..if i + 1 < |p| then i + 1 else |p|], t) - 1
    decreases i + 1
  {
    var s := Fill(p);
    var n := if i + 1 < |p| then i + 1 else |p|;
    if i < 0 {
      assert p[..n] == [];
    } else if i >= |p| {
      StopSlotFill(p, t, i - 1);
      assert (if i < |p| then i else |p|) == n;
    } else {
      assert n == i + 1;
      assert p[..n][|p[..n]| - 1] == p[i];
      if p[i].time >= t.time {
      } else {
        StopSlotFill(p, t, i - 1);
        assert p[..n][..n - 1] == p[..i];
      }
    }
  }

  /** On the list view, `add_to_top_tasks` is InsertTop: whatever the
      tasks, the array after the call is the filled array of the list
      with the new task inserted. */
  lemma AddToTopFill(p: seq<Task>, t: Task)
    requires |p| <= TOP
    ensures AddToTop(Fill(p), t) == Fill(InsertTop(p, t))
  {
    StopSlotFill(p, t, TOP - 1);
    assert p[..|p|] == p;
    forall j | 0 <= j < TOP ensures AddToTop(Fill(p), t)[j] == Fill(InsertTop(p, t))[j] {
      AddToTopFillAt(p, t, j);
    }
  }

  /** Slot `j` of AddToTopFill. */
  lemma AddToTopFillAt(p: seq<Task>, t: Task, j: nat)
    requires |p| <= TOP && j < TOP && StopSlot(Fill(p), t, TOP - 1) == Ahead(p, t) - 1
    ensures AddToTop(Fill(p), t)[j] == Fill(InsertTop(p, t))[j]
  {
    var k := Ahead(p, t);
    InsertedAt(p, t);
    var u := Inserted(p, t);
    var q := InsertTop(p, t);
    InsertTopAt(p, t);
    AddToTopAt(Fill(p), t, j);
    var f := Fill(q);
    if j < k {
      assert f[j] == Some(q[j]) && q[j] == u[j] == p[j];
    } else if j == k {
      assert f[j] == Some(q[j]) && q[j] == u[j] == t;
    } else if j < |q| {
      assert f[j] == Some(q[j]) && q[j] == u[j] == p[j - 1];
    } else {
      assert j - 1 >= |p| && f[j].None?;
    }
  }

  /** Slot j of the array after `add_to_top_tasks`, by its place relative
      to the stop slot. */
  lemma AddToTopAt(s: Slots, t: Task, j: nat)
    requires |s| == TOP && j < TOP
    ensures var i := StopSlot(s, t, TOP - 1);
            AddToTop(s, t)[j] == if j <= i then s[j] else if j == i + 1 then Some(t) else s[j - 1]
  {
  }

  /** The truncated list agrees with the inserted one where both exist. */
  lemma InsertTopAt(p: seq<Task>, t: Task)
    requires |p| <= TOP
    ensures forall j :: 0 <= j < |InsertTop(p, t)| ==> InsertTop(p, t)[j] == Inserted(p, t)[j]
  {
  }

  /** Where each task lands in the inserted list. */
  lemma InsertedAt(p: seq<Task>, t: Task)
    ensures var k := Ahead(p, t);
            var u := Inserted(p, t);
            && u[k] == t
            && (forall j :: 0 <= j < k ==> u[j] == p[j])
            && (forall j :: k < j < |u| ==> u[j] == p[j - 1])
  {
    var k := Ahead(p, t);
    var u := Inserted(p, t);
    var a, b := p[..k], p[k..];
    assert u == a + [t] + b;
    assert |a| == k;
    forall j | 0 <= j < k ensures u[j] == p[j] {
      assert u[j] == a[j];
    }
    forall j | k < j < |u| ensures u[j] == p[j - 1] {
      assert u[j] == b[j - k - 1];
    }
  }

  /** Inserting after the tasks ahead keeps a list in non-increasing
      order. */
  lemma InsertedDescending(p: seq<Task>, t: Task)
    requires Descending(p)
    ensures Descending(Inserted(p, t))
  {
    var k := Ahead(p, t);
    var u := Inserted(p, t);
    InsertedAt(p, t);
    forall i, j | 0 <= i < j < |u| ensures u[i].time >= u[j].time {
      if j < k {
        assert u[i] == p[i] && u[j] == p[j];
      } else if j == k {
        assert u[i] == p[i] && p[i].time >= p[k - 1].time;
      } else if i == k {
        assert u[j] == p[j - 1];
      } else if i < k {
        assert u[i] == p[i] && u[j] == p[j - 1];
      } else {
        assert u[i] == p[i - 1] && u[j] == p[j - 1];
      }
    }
  }

  /** InsertTop keeps the list in non-increasing order. */
  lemma InsertTopDescending(p: seq<Task>, t: Task)
    requires |p| <= TOP && Descending(p)
    ensures Descending(InsertTop(p, t))
  {
    InsertedDescending(p, t);
  }

  /** `add_to_top_tasks` keeps the array invariant. */
  lemma AddToTopValid(s: Slots, t: Task)
    requires |s| == TOP && TopValid(s)
    ensures TopValid(AddToTop(s, t))
  {
    var p :| |p| <= TOP && Descending(p) && s == Fill(p);
    AddToTopFill(p, t);
    InsertTopDescending(p, t);
  }

  /** A full array whose last task is at least as heavy as the new one is
      left as it is. */
  lemma AddToTopFullUnchanged(s: Slots, t: Task)
    requires |s| == TOP && s[TOP - 1].Some? && s[TOP - 1].value.time >= t.time
    ensures AddToTop(s, t) == s
  {
  }

  // ---------------------------------------------------------------------
  // traverse_rbtree

  /** The top list after offering the tasks `ts`, in order, to an empty
      array. */
  function TopOf(ts: seq<Task>): (p: seq<Task>)
    ensures |p| == if |ts| < TOP then |ts| else TOP
  {
    if ts == [] then [] else InsertTop(TopOf(ts[..|ts| - 1]), ts[|ts| - 1])
  }

  /** The array after `add_to_top_tasks` is called on `s` with each of
      `ts` in turn. */
  function AddAll(s: Slots, ts: seq<Task>): (r: Slots)
    requires |s| == TOP
    ensures |r| == TOP
  {
    if ts == [] then s else AddToTop(AddAll(s, ts[..|ts| - 1]), ts[|ts| - 1])
  }

  /** Offering tasks to an empty array lists their top ten. */
  lemma {:induction false} AddAllFill(ts: seq<Task>)
    ensures AddAll(Fill([]), ts) == Fill(TopOf(ts))
  {
    if ts != [] {
      AddAllFill(ts[..|ts| - 1]);
      AddToTopFill(TopOf(ts[..|ts| - 1]), ts[|ts| - 1]);
    }
  }

  /** In a non-increasing list of eleven, the last is the lightest. */
  lemma LastIsLightest(u: seq<Task>)
    requires |u| == TOP + 1 && Descending(u)
    ensures u == u[..TOP] + [u[TOP]]
    ensures forall y :: y in u[..TOP] ==> u[TOP].time <= y.time
  {
  }

  /** Inserting into a full list drops the task in the eleventh place of
      the inserted list: it is no heavier than any task that stays, and
      it is either the new task itself (and then the list is unchanged)
      or a task of the list lighter than the new one. */
  lemma InsertTopFull(p: seq<Task>, t: Task)
    requires |p| == TOP && Descending(p)
    ensures var u := Inserted(p, t);
            var q := InsertTop(p, t);
            && multiset(q) + multiset{u[TOP]} == multiset(p) + multiset{t}
            && (forall y :: y in q ==> u[TOP].time <= y.time)
            && (Ahead(p, t) == TOP ==> u[TOP] == t && q == p)
            && (Ahead(p, t) < TOP ==> u[TOP] in p && u[TOP].time < t.time)
  {
    var k := Ahead(p, t);
    var u := Inserted(p, t);
    assert u == p[..k] + [t] + p[k..];
    InsertedDescending(p, t);
    LastIsLightest(u);
    if k < TOP {
      assert u[TOP] == p[TOP - 1];
    }
  }

  /** Multiset bookkeeping of one full insertion: the list `mp`, drawn
      from `mi`, trades `u` for `t` and becomes `mq`. */
  lemma ReplaceOne(mi: multiset<Task>, mp: multiset<Task>, mq: multiset<Task>, t: Task, u: Task)
    requires mp <= mi
    requires mq + multiset{u} == mp + multiset{t}
    ensures mq <= mi + multiset{t}
    ensures (mi + multiset{t}) - mq == (mi - mp) + multiset{u}
  {
    forall x ensures mq[x] <= (mi + multiset{t})[x] {
      assert (mq + multiset{u})[x] == (mp + multiset{t})[x];
    }
    forall x ensures ((mi + multiset{t}) - mq)[x] == ((mi - mp) + multiset{u})[x] {
      assert (mq + multiset{u})[x] == (mp + multiset{t})[x];
    }
  }

  /** `p` is a valid top list for the tasks `ts`: non-increasing, drawn
      from `ts` (all of it when there are at most ten), and no task left
      out is heavier than a task kept. */
  ghost predicate Selects(ts: seq<Task>, p: seq<Task>)
  {
    && Descending(p)
    && multiset(p) <= multiset(ts)
    && (|ts| <= TOP ==> multiset(p) == multiset(ts))
    && (forall x, y :: x in multiset(ts) - multiset(p) && y in p ==> x.time <= y.time)
  }

  /** Inserting into a list that is not yet full loses nothing. */
  lemma SelectsGrow(ts: seq<Task>, p: seq<Task>, t: Task)
    requires |ts| < TOP && |p| == |ts| && Selects(ts, p)
    ensures Selects(ts + [t], InsertTop(p, t))
  {
    InsertTopDescending(p, t);
    assert multiset(ts + [t]) == multiset(ts) + multiset{t};
  }

  /** Inserting into a full list drops one task no heavier than any kept. */
  lemma SelectsFull(ts: seq<Task>, p: seq<Task>, t: Task)
    requires |ts| >= TOP && |p| == TOP && Selects(ts, p)
    ensures Selects(ts + [t], InsertTop(p, t))
  {
    var q := InsertTop(p, t);
    InsertTopDescending(p, t);
    assert multiset(ts + [t]) == multiset(ts) + multiset{t};
    InsertTopFull(p, t);
    var u := Inserted(p, t)[TOP];
    var dropped := multiset(ts) - multiset(p);
    ReplaceOne(multiset(ts), multiset(p), multiset(q), t, u);
    forall x, y | x in multiset(ts + [t]) - multiset(q) && y in q ensures x.time <= y.time {
      if x != u {
        assert x in dropped;
        if y !in p {
          assert y in multiset(q);
          assert y in multiset(p) + multiset{t};
          assert y == t;
          assert q != p;
        }
      }
    }
  }

  /** What `traverse_rbtree` leaves in an all-empty array: the min(10, n)
      heaviest of the tasks, in non-increasing order of time. The list is
      drawn from the tasks (all of them when there are at most ten), and
      every task left out is no heavier than any task kept. */
  lemma {:induction false} TopOfSelects(ts: seq<Task>)
    ensures Selects(ts, TopOf(ts))
  {
    if ts != [] {
      var init, t := ts[..|ts| - 1], ts[|ts| - 1];
      assert ts == init + [t];
      TopOfSelects(init);
      if |init| < TOP {
        SelectsGrow(init, TopOf(init), t);
      } else {
        SelectsFull(init, TopOf(init), t);
      }
    }
  }

  // ---------------------------------------------------------------------
  // traverse_rbtree and perftop_show

  /** The tree's nodes as tasks, in the order `rb_first`/`rb_next` visit
      them. */
  function TasksOf(s: seq<(int, U64)>): (ts: seq<Task>)
    ensures |ts| == |s|
    ensures forall i :: 0 <= i < |s| ==> ts[i] == Task(s[i].0, s[i].1)
  {
    seq(|s|, i requires 0 <= i < |s| => Task(s[i].0, s[i].1))
  }

  /** `traverse_rbtree`: offer every node, in order, to `add_to_top_tasks`. */
  method TraverseRbTree(tree: RbTree.Tree<U64>, a: array<Option<Task>>)
    requires a.Length == TOP
    modifies a
    ensures a[..] == AddAll(old(a[..]), TasksOf(RbTree.InOrder(tree)))
  {
    var walk := TasksOf(RbTree.InOrder(tree));
    ghost var s := a[..];
    var n := 0;
    while n < |walk|
      invariant 0 <= n <= |walk|
      invariant a[..] == AddAll(s, walk[..n])
    {
      AddToTopTasks(a, walk[n]);
      assert walk[..n + 1][..n] == walk[..n];
      n := n + 1;
    }
    assert walk[..|walk|] == walk;
  }

  /** `perftop_show`: traverse the tree into an all-empty array, then list
      the occupied slots in order. What is listed is the top list of the
      tree's tasks: at most ten of the heaviest, in non-increasing order
      of time. */
  method PerftopShow(tree: RbTree.Tree<U64>) returns (shown: seq<Task>)
    ensures shown == TopOf(TasksOf(RbTree.InOrder(tree)))
    ensures Selects(TasksOf(RbTree.InOrder(tree)), shown)
    ensures |shown| == if RbTree.Size(tree) < TOP then RbTree.Size(tree) else TOP
  {
    ghost var ts := TasksOf(RbTree.InOrder(tree));
    var top := new Option<Task>[TOP](_ => None);
    assert top[..] == Fill([]);
    TraverseRbTree(tree, top);
    AddAllFill(ts);
    TopOfSelects(ts);
    RbTree.InOrderKeys(tree);
    shown := Occupied(top, TopOf(ts));
  }

  /** The printing loop of `perftop_show`: the tasks of the occupied slots,
      in slot order. On a filled array they are the list it was filled
      with. */
  method Occupied(a: array<Option<Task>>, ghost p: seq<Task>) returns (shown: seq<Task>)
    requires a.Length == TOP && |p| <= TOP && a[..] == Fill(p)
    ensures shown == p
  {
    shown := [];
    for i := 0 to TOP
      invariant shown == p[..if i < |p| then i else |p|]
    {
      if a[i].Some? {
        assert a[i] == Fill(p)[i];
        shown := shown + [a[i].value];
      }
    }
    assert p[..|p|] == p;
  }

  // ---------------------------------------------------------------------
  // The start-time table

  /** A node of start_time_hash. */
  datatype StartEntry = StartEntry(pid: int, start: U64)

  /** `find_start_time`: the start time of the first entry for `pid`, or 0
      when there is none. */
  function FirstStart(s: seq<StartEntry>, pid: int): (r: U64)
    ensures (forall i :: 0 <= i < |s| ==> s[i].pid != pid) ==> r == 0
    ensures forall i :: 0 <= i < |s| && s[i].pid == pid && (forall j :: 0 <= j < i ==> s[j].pid != pid)
                        ==> r == s[i].start
  {
    if s == [] then 0
    else if s[0].pid == pid then s[0].start
    else FirstStart(s[1..], pid)
  }

  /** `delete_start_time`: the table without its first entry for `pid`. */
  function RemoveFirst(s: seq<StartEntry>, pid: int): (r: seq<StartEntry>)
    ensures (forall i :: 0 <= i < |s| ==> s[i].pid != pid) ==> r == s
  {
    if s == [] then []
    else if s[0].pid == pid then s[1..]
    else [s[0]] + RemoveFirst(s[1..], pid)
  }

  /** When the table has an entry for `pid`, deleting removes exactly one
      entry: the one `find_start_time` returns. */
  lemma {:induction false} RemoveFirstRemovesOne(s: seq<StartEntry>, pid: int)
    requires exists i :: 0 <= i < |s| && s[i].pid == pid
    ensures |RemoveFirst(s, pid)| == |s| - 1
    ensures multiset(s) == multiset(RemoveFirst(s, pid)) + multiset{StartEntry(pid, FirstStart(s, pid))}
  {
    assert s == [s[0]] + s[1..];
    if s[0].pid != pid {
      var i :| 0 <= i < |s| && s[i].pid == pid;
      assert s[1..][i - 1].pid == pid;
      RemoveFirstRemovesOne(s[1..], pid);
    }
  }

  /** The first entry for `pid` sits at `i`: deleting it cuts out slot `i`. */
  lemma {:induction false} RemoveFirstAt(s: seq<StartEntry>, pid: int, i: nat)
    requires i < |s| && s[i].pid == pid
    requires forall j :: 0 <= j < i ==> s[j].pid != pid
    ensures RemoveFirst(s, pid) == s[..i] + s[i + 1..]
  {
    if i > 0 {
      assert s[0].pid != pid;
      var t := s[1..];
      assert forall j :: 0 <= j < i - 1 ==> t[j].pid != pid by {
        forall j | 0 <= j < i - 1 ensures t[j].pid != pid {
          assert t[j] == s[j + 1];
        }
      }
      RemoveFirstAt(t, pid, i - 1);
      assert RemoveFirst(s, pid) == [s[0]] + (t[..i - 1] + t[i..]);
      assert t[..i - 1] == s[1..i];
      assert t[i..] == s[i + 1..];
      assert s[..i] == [s[0]] + s[1..i];
    }
  }

  /** Deleting one pid's entry leaves every other pid's start time as it
      was. */
  lemma {:induction false} RemoveFirstOthers(s: seq<StartEntry>, pid: int, other: int)
    requires other != pid
    ensures FirstStart(RemoveFirst(s, pid), other) == FirstStart(s, other)
  {
    if s != [] && s[0].pid != pid {
      RemoveFirstOthers(s[1..], pid, other);
      assert ([s[0]] + RemoveFirst(s[1..], pid))[1..] == RemoveFirst(s[1..], pid);
    }
  }

  /** The entry added last for a pid is the one found and the one deleted:
      adding then deleting restores the table. */
  lemma AddFindDelete(s: seq<StartEntry>, pid: int, start: U64)
    ensures FirstStart([StartEntry(pid, start)] + s, pid) == start
    ensures RemoveFirst([StartEntry(pid, start)] + s, pid) == s
  {
    assert ([StartEntry(pid, start)] + s)[1..] == s;
  }

  // ---------------------------------------------------------------------
  // Accounting

  /** `update_rb_tree`: a pid in the tree has `cpuTime` added to its total
      (wrapping as a u64); a new pid gets a node with `cpuTime`. */
  function Charge(t: RbTree.Tree<U64>, pid: int, cpuTime: U64): (r: RbTree.Tree<U64>)
    ensures RbTree.Keys(r) == RbTree.Keys(t) + {pid}
  {
    match RbTree.Lookup(t, pid)
    case Some(total) => RbTree.Replace(t, pid, AddU64(total, cpuTime))
    case None => RbTree.Insert(t, pid, cpuTime)
  }

  /** Charging keeps the tree ordered, updates or adds exactly the charged
      pid, and leaves every other pid's total alone; one node is added
      exactly when the pid was new. */
  lemma ChargeSpec(t: RbTree.Tree<U64>, pid: int, cpuTime: U64, other: int)
    requires RbTree.Ordered(t)
    ensures var r := Charge(t, pid, cpuTime);
            && RbTree.Ordered(r)
            && RbTree.Keys(r) == RbTree.Keys(t) + {pid}
            && RbTree.Size(r) == RbTree.Size(t) + (if pid in RbTree.Keys(t) then 0 else 1)
            && RbTree.Lookup(r, pid) == Some(match RbTree.Lookup(t, pid)
                                              case Some(total) => AddU64(total, cpuTime)
                                              case None => cpuTime)
            && (other != pid ==> RbTree.Lookup(r, other) == RbTree.Lookup(t, other))
  {
    RbTree.LookupFindsKeys(t, pid);
    match RbTree.Lookup(t, pid)
    case Some(total) =>
      RbTree.LookupAfterReplace(t, pid, AddU64(total, cpuTime), other);
    case None =>
      RbTree.LookupAfterInsert(t, pid, cpuTime, other);
  }

  /** The profiler's state: the task tree (pid to total CPU time) and the
      start-time table, newest entry first. */
  class Profiler {
    var tree: RbTree.Tree<U64>
    var starts: seq<StartEntry>

    ghost predicate Valid()
      reads this
    {
      RbTree.Ordered(tree)
    }

    /** The module as loaded: an empty tree and an empty table. */
    constructor ()
      ensures Valid() && tree == RbTree.Leaf && starts == []
    {
      tree := RbTree.Leaf;
      starts := [];
    }

    /** `add_start_time`: `hash_add` puts the new entry at the head. */
    method AddStartTime(pid: int, start: U64)
      modifies this`starts
      ensures starts == [StartEntry(pid, start)] + old(starts)
    {
      starts := [StartEntry(pid, start)] + starts;
    }

    /** `find_start_time`: walk the table and stop at the first entry for
        `pid`; 0 when there is none. */
    method FindStartTime(pid: int) returns (start: U64)
      ensures start == FirstStart(starts, pid)
    {
      var i := 0;
      while i < |starts|
        invariant 0 <= i <= |starts|
        invariant FirstStart(starts[i..], pid) == FirstStart(starts, pid)
      {
        if starts[i].pid == pid {
          return starts[i].start;
        }
        assert starts[i..][1..] == starts[i + 1..];
        i := i + 1;
      }
      return 0;
    }

    /** `delete_start_time`: walk the table and unlink the first entry for
        `pid`, if any. */
    method DeleteStartTime(pid: int)
      modifies this`starts
      ensures starts == RemoveFirst(old(starts), pid)
    {
      var i := 0;
      while i < |starts| && starts[i].pid != pid
        invariant 0 <= i <= |starts|
        invariant forall j :: 0 <= j < i ==> starts[j].pid != pid
      {
        i := i + 1;
      }
      if i < |starts| {
        RemoveFirstAt(starts, pid, i);
        starts := starts[..i] + starts[i + 1..];
      }
    }

    /** `find_task_rbtree`: the BST search by pid. The answer is the total
        of the node with that pid, or None when no node has it. */
    method FindTask(pid: int) returns (r: Option<U64>)
      requires Valid()
      ensures r == RbTree.Lookup(tree, pid)
      ensures r.Some? <==> pid in RbTree.Keys(tree)
    {
      RbTree.LookupFindsKeys(tree, pid);
      var node := tree;
      while node.Node?
        invariant RbTree.Lookup(node, pid) == RbTree.Lookup(tree, pid)
        decreases node
      {
        if pid < node.key {
          node := node.left;
        } else if pid > node.key {
          node := node.right;
        } else {
          return Some(node.val);
        }
      }
      return None;
    }

    /** `insert_task_rbtree`: descend by pid; a pid already present ends
        the walk with the tree unchanged, otherwise a node (pid, cpuTime)
        is linked where the walk fell off. */
    method InsertTask(pid: int, cpuTime: U64)
      requires Valid()
      modifies this`tree
      ensures Valid()
      ensures tree == RbTree.Insert(old(tree), pid, cpuTime)
    {
      var node := tree;
      while node.Node?
        invariant RbTree.Ordered(node)
        invariant (pid in RbTree.Keys(tree)) <==> (pid in RbTree.Keys(node))
        decreases node
      {
        if pid < node.key {
          node := node.left;
        } else if pid > node.key {
          node := node.right;
        } else {
          return;
        }
      }
      tree := RbTree.Insert(tree, pid, cpuTime);
    }

    /** `update_rb_tree`: accumulate into the pid's node, or insert one. */
    method UpdateRbTree(pid: int, cpuTime: U64)
      requires Valid()
      modifies this`tree
      ensures Valid()
      ensures tree == Charge(old(tree), pid, cpuTime)
    {
      var found := FindTask(pid);
      if found.Some? {
        tree := RbTree.Replace(tree, pid, AddU64(found.value, cpuTime));
      } else {
        InsertTask(pid, cpuTime);
      }
    }

    /** `entry_pick_next_fair`: record the start time of the task passed
        in, if there is one. */
    method EntryPickNextFair(task: Option<int>, start: U64)
      modifies this`starts
      ensures starts == if task.Some? then [StartEntry(task.value, start)] + old(starts) else old(starts)
    {
      if task.Some? {
        AddStartTime(task.value, start);
      }
    }

    /** `ret_pick_next_fair`: when a task was running and a different one
        is picked, charge the running task end - start (a u64 difference)
        and delete its start entry; otherwise nothing changes. */
    method RetPickNextFair(prev: Option<int>, next: Option<int>, endTime: U64)
      requires Valid()
      modifies this
      ensures Valid()
      ensures prev.Some? && prev != next ==>
                && tree == Charge(old(tree), prev.value, SubU64(endTime, FirstStart(old(starts), prev.value)))
                && starts == RemoveFirst(old(starts), prev.value)
      ensures !(prev.Some? && prev != next) ==> tree == old(tree) && starts == old(starts)
    {
      if prev.Some? && prev != next {
        var startTime := FindStartTime(prev.value);
        var totalTime := SubU64(endTime, startTime);
        UpdateRbTree(prev.value, totalTime);
        DeleteStartTime(prev.value);
      }
    }
  }
}
