/**
 The task list behind the main screen: an ordered sequence of tasks and the
 text buffer of the input popup, with the three operations the screen
 invokes — toggle a task's completion, add the buffered task, delete rows by
 offset.
 */
module TaskList {
  import opened Wrappers

  /** A task's identity. A `UUID()` drawn when a task is created is modelled
      as a caller-supplied id that no task in the list carries yet. */
  type TaskId = nat

  datatype Task = Task(id: TaskId, name: string, isCompleted: bool)

  /** The state the screen keeps: the tasks in display order and the text
      typed into the popup. */
  datatype ContentState = ContentState(tasks: seq<Task>, newTaskName: string)

  function Ids(tasks: seq<Task>): set<TaskId> {
    set i | 0 <= i < |tasks| :: tasks[i].id
  }

  predicate DistinctIds(tasks: seq<Task>) {
    forall i, j :: 0 <= i < j < |tasks| ==> tasks[i].id != tasks[j].id
  }

  /** No two tasks share an id and no task has an empty name. */
  predicate Valid(s: ContentState) {
    && DistinctIds(s.tasks)
    && forall i :: 0 <= i < |s.tasks| ==> s.tasks[i].name != []
  }

  /** The list the screen starts with: one open task named "Sample Task",
      and an empty input buffer. */
  function Initial(seedId: TaskId): (s: ContentState)
    ensures Valid(s)
    ensures |s.tasks| == 1 && s.tasks[0].name == "Sample Task" && !s.tasks[0].isCompleted
    ensures Ids(s.tasks) == {seedId}
    ensures s.newTaskName == []
  {
    var s := ContentState([Task(seedId, "Sample Task", false)], "");
    assert Ids(s.tasks) == {s.tasks[0].id};
    s
  }

  // ---------------------------------------------------------------- toggle

  /** Task `k` is the first one that carries `id`. */
  predicate IsFirstWithId(tasks: seq<Task>, k: nat, id: TaskId)
    requires k < |tasks|
  {
    tasks[k].id == id && forall j :: 0 <= j < k ==> tasks[j].id != id
  }

  /** The offset of the first task carrying `id`, if any. */
  function FirstIndex(tasks: seq<Task>, id: TaskId): (r: Option<nat>)
    ensures r.Some? ==> r.value < |tasks| && IsFirstWithId(tasks, r.value, id)
    ensures r.None? <==> id !in Ids(tasks)
  {
    if tasks == [] then None
    else if tasks[0].id == id then Some(0)
    else match FirstIndex(tasks[1..], id)
      case None =>
        assert Ids(tasks) == {tasks[0].id} + Ids(tasks[1..]) by {
          IdsOfCons(tasks);
        }
        None
      case Some(i) => Some(i + 1)
  }

  lemma IdsOfCons(tasks: seq<Task>)
    requires tasks != []
    ensures Ids(tasks) == {tasks[0].id} + Ids(tasks[1..])
  {
    forall x | x in Ids(tasks)
      ensures x in {tasks[0].id} + Ids(tasks[1..])
    {
      var i :| 0 <= i < |tasks| && tasks[i].id == x;
      if i > 0 {
        assert tasks[1..][i - 1] == tasks[i];
      }
    }
    forall x | x in Ids(tasks[1..])
      ensures x in Ids(tasks)
    {
      var i :| 0 <= i < |tasks[1..]| && tasks[1..][i].id == x;
      assert tasks[i + 1] == tasks[1..][i];
    }
  }

  /** Toggling: the first task with the id, and only it, changes its
      completion flag; the length, order, ids and names all stay; an id no
      task carries changes nothing. */
  function ToggleCompletion(tasks: seq<Task>, id: TaskId): (r: seq<Task>)
    ensures |r| == |tasks|
    ensures forall k :: 0 <= k < |r| ==>
      && r[k].id == tasks[k].id
      && r[k].name == tasks[k].name
      && (r[k].isCompleted != tasks[k].isCompleted <==> IsFirstWithId(tasks, k, id))
    ensures id !in Ids(tasks) ==> r == tasks
  {
    match FirstIndex(tasks, id)
    case None => tasks
    case Some(i) => tasks[i := tasks[i].(isCompleted := !tasks[i].isCompleted)]
  }

  /** Toggling the same id twice gives the original list back. */
  lemma ToggleTwice(tasks: seq<Task>, id: TaskId)
    ensures ToggleCompletion(ToggleCompletion(tasks, id), id) == tasks
  {
    var once := ToggleCompletion(tasks, id);
    var twice := ToggleCompletion(once, id);
    forall k | 0 <= k < |tasks|
      ensures twice[k] == tasks[k]
    {
      assert IsFirstWithId(once, k, id) == IsFirstWithId(tasks, k, id);
    }
  }

  /** Toggling keeps the ids, so distinct ids stay distinct. */
  lemma ToggleKeepsIds(tasks: seq<Task>, id: TaskId)
    ensures Ids(ToggleCompletion(tasks, id)) == Ids(tasks)
    ensures DistinctIds(tasks) ==> DistinctIds(ToggleCompletion(tasks, id))
  {
    var r := ToggleCompletion(tasks, id);
    assert forall k :: 0 <= k < |r| ==> r[k].id == tasks[k].id;
    forall x | x in Ids(tasks)
      ensures x in Ids(r)
    {
      var i :| 0 <= i < |tasks| && tasks[i].id == x;
      assert r[i].id == x;
    }
  }

  /** When ids are distinct the first task with the id is the only one:
      exactly that task's flag flips. */
  lemma ToggleDistinct(tasks: seq<Task>, k: nat)
    requires DistinctIds(tasks) && k < |tasks|
    ensures var r := ToggleCompletion(tasks, tasks[k].id);
      && r[k].isCompleted == !tasks[k].isCompleted
      && r == tasks[k := r[k]]
  {
    var id := tasks[k].id;
    var r := ToggleCompletion(tasks, id);
    assert IsFirstWithId(tasks, k, id);
    forall j | 0 <= j < |tasks| && j != k
      ensures r[j] == tasks[j]
    {
      assert !IsFirstWithId(tasks, j, id);
    }
  }

  // ------------------------------------------------------------------- add

  /** Adding the buffered task. With an empty buffer nothing changes.
      Otherwise the list grows by one open task at the end carrying the
      buffered name and the fresh id, every earlier task stays as it was,
      and the buffer is cleared. Distinct ids and non-empty names are
      kept. */
  function AddTask(s: ContentState, freshId: TaskId): (r: ContentState)
    requires s.newTaskName != [] ==> freshId !in Ids(s.tasks)
    ensures s.newTaskName == [] ==> r == s
    ensures s.newTaskName != [] ==>
      && |r.tasks| == |s.tasks| + 1
      && r.tasks[..|s.tasks|] == s.tasks
      && r.tasks[|s.tasks|].name == s.newTaskName
      && !r.tasks[|s.tasks|].isCompleted
      && r.tasks[|s.tasks|].id !in Ids(s.tasks)
      && Ids(r.tasks) == Ids(s.tasks) + {freshId}
      && r.newTaskName == []
    ensures Valid(s) ==> Valid(r)
  {
    if s.newTaskName == [] then s
    else
      var tasks := s.tasks + [Task(freshId, s.newTaskName, false)];
      assert tasks[..|s.tasks|] == s.tasks;
      assert Ids(tasks) == Ids(s.tasks) + {freshId} by {
        forall x | x in Ids(tasks)
          ensures x in Ids(s.tasks) + {freshId}
        {
          var i :| 0 <= i < |tasks| && tasks[i].id == x;
          if i < |s.tasks| {
            assert tasks[i] == s.tasks[i];
          }
        }
        forall x | x in Ids(s.tasks)
          ensures x in Ids(tasks)
        {
          var i :| 0 <= i < |s.tasks| && s.tasks[i].id == x;
          assert tasks[i] == s.tasks[i];
        }
        assert tasks[|s.tasks|].id == freshId;
      }
      assert DistinctIds(s.tasks) ==> DistinctIds(tasks) by {
        if DistinctIds(s.tasks) {
          forall i, j | 0 <= i < j < |tasks|
            ensures tasks[i].id != tasks[j].id
          {
            if j == |s.tasks| {
              assert tasks[i].id == s.tasks[i].id;
              assert s.tasks[i].id in Ids(s.tasks);
            }
          }
        }
      }
      ContentState(tasks, "")
  }

  /** An id no task carries, so that adding is always possible. */
  function FreshId(tasks: seq<Task>): (id: TaskId)
    ensures id !in Ids(tasks)
    ensures forall i :: 0 <= i < |tasks| ==> tasks[i].id < id
  {
    if tasks == [] then 0
    else
      var rest := FreshId(tasks[..|tasks| - 1]);
      var last := tasks[|tasks| - 1].id;
      var id := if rest > last then rest else last + 1;
      assert forall i :: 0 <= i < |tasks| - 1 ==> tasks[i] == tasks[..|tasks| - 1][i];
      id
  }

  // ---------------------------------------------------------------- delete

  /** The offsets below `n` that are not in `offsets`: each of them exactly
      once, in ascending order. */
  function Survivors(n: nat, offsets: set<nat>): (ks: seq<nat>)
    ensures forall k :: 0 <= k < |ks| ==> ks[k] < n && ks[k] !in offsets
    ensures forall i :: 0 <= i < n && i !in offsets ==> i in ks
    ensures forall k, l :: 0 <= k < l < |ks| ==> ks[k] < ks[l]
  {
    if n == 0 then [] else Survivors(n - 1, offsets) + (if n - 1 in offsets then [] else [n - 1])
  }

  /** The tasks at the surviving offsets, in their original order. */
  function Keep(tasks: seq<Task>, offsets: set<nat>): (r: seq<Task>)
    ensures var ks := Survivors(|tasks|, offsets);
      |r| == |ks| && forall k :: 0 <= k < |r| ==> r[k] == tasks[ks[k]]
  {
    if tasks == [] then []
    else
      var n := |tasks| - 1;
      var front := tasks[..n];
      var r := Keep(front, offsets) + (if n in offsets then [] else [tasks[n]]);
      assert forall k :: 0 <= k < n ==> front[k] == tasks[k];
      r
  }

  /** Deleting rows: the tasks whose offset is not in the set, in their
      original order. Every offset must name a row. The list shrinks by the
      size of the set. */
  function RemoveAtOffsets(tasks: seq<Task>, offsets: set<nat>): (r: seq<Task>)
    requires forall o :: o in offsets ==> o < |tasks|
    ensures |r| == |tasks| - |offsets|
    ensures var ks := Survivors(|tasks|, offsets);
      |r| == |ks| && forall k :: 0 <= k < |r| ==> r[k] == tasks[ks[k]]
  {
    SurvivorCount(|tasks|, offsets);
    assert OffsetsBelow(offsets, |tasks|) == offsets;
    Keep(tasks, offsets)
  }

  function OffsetsBelow(offsets: set<nat>, n: nat): set<nat> {
    set o | o in offsets && o < n
  }

  /** Of the offsets below `n`, those in the set and those that survive add
      up to `n`. */
  lemma {:induction false} SurvivorCount(n: nat, offsets: set<nat>)
    ensures |Survivors(n, offsets)| + |OffsetsBelow(offsets, n)| == n
  {
    if n > 0 {
      SurvivorCount(n - 1, offsets);
      OffsetsBelowStep(offsets, n - 1);
    }
  }

  lemma OffsetsBelowStep(offsets: set<nat>, n: nat)
    ensures |OffsetsBelow(offsets, n + 1)| == |OffsetsBelow(offsets, n)| + (if n in offsets then 1 else 0)
  {
    var below := OffsetsBelow(offsets, n);
    if n in offsets {
      assert OffsetsBelow(offsets, n + 1) == below + {n};
    } else {
      assert OffsetsBelow(offsets, n + 1) == below;
    }
  }

  /** Deleting keeps ids distinct. */
  lemma RemoveKeepsDistinct(tasks: seq<Task>, offsets: set<nat>)
    requires forall o :: o in offsets ==> o < |tasks|
    requires DistinctIds(tasks)
    ensures DistinctIds(RemoveAtOffsets(tasks, offsets))
  {
    var r := RemoveAtOffsets(tasks, offsets);
    var ks := Survivors(|tasks|, offsets);
    forall k, l | 0 <= k < l < |r|
      ensures r[k].id != r[l].id
    {
      assert r[k] == tasks[ks[k]] && r[l] == tasks[ks[l]];
    }
  }

  /** The ids of the surviving rows. */
  function SurvivingIds(tasks: seq<Task>, offsets: set<nat>): set<TaskId> {
    set i | 0 <= i < |tasks| && i !in offsets :: tasks[i].id
  }

  /** The ids left after deleting are exactly those of the surviving rows. */
  lemma RemoveIds(tasks: seq<Task>, offsets: set<nat>)
    requires forall o :: o in offsets ==> o < |tasks|
    ensures Ids(RemoveAtOffsets(tasks, offsets)) == SurvivingIds(tasks, offsets)
  {
    RemovedIdsSurvive(tasks, offsets);
    SurvivingIdsRemain(tasks, offsets);
  }

  lemma RemovedIdsSurvive(tasks: seq<Task>, offsets: set<nat>)
    requires forall o :: o in offsets ==> o < |tasks|
    ensures Ids(RemoveAtOffsets(tasks, offsets)) <= SurvivingIds(tasks, offsets)
  {
    var r := RemoveAtOffsets(tasks, offsets);
    var ks := Survivors(|tasks|, offsets);
    forall x | x in Ids(r)
      ensures x in SurvivingIds(tasks, offsets)
    {
      var k :| 0 <= k < |r| && r[k].id == x;
      var i := ks[k];
      assert r[k] == tasks[i];
      assert 0 <= i < |tasks| && i !in offsets;
    }
  }

  lemma SurvivingIdsRemain(tasks: seq<Task>, offsets: set<nat>)
    requires forall o :: o in offsets ==> o < |tasks|
    ensures SurvivingIds(tasks, offsets) <= Ids(RemoveAtOffsets(tasks, offsets))
  {
    var r := RemoveAtOffsets(tasks, offsets);
    var ks := Survivors(|tasks|, offsets);
    forall x | x in SurvivingIds(tasks, offsets)
      ensures x in Ids(r)
    {
      var i :| 0 <= i < |tasks| && i !in offsets && tasks[i].id == x;
      var k :| 0 <= k < |ks| && ks[k] == i;
      assert r[k] == tasks[i];
    }
  }

  /** With distinct ids, no deleted task's id remains. */
  lemma RemoveDropsDeletedIds(tasks: seq<Task>, offsets: set<nat>)
    requires forall o :: o in offsets ==> o < |tasks|
    requires DistinctIds(tasks)
    ensures forall o :: o in offsets ==> tasks[o].id !in Ids(RemoveAtOffsets(tasks, offsets))
  {
    RemovedIdsSurvive(tasks, offsets);
    forall o | o in offsets
      ensures tasks[o].id !in Ids(RemoveAtOffsets(tasks, offsets))
    {
      assert forall i :: 0 <= i < |tasks| && i !in offsets ==> i != o;
    }
  }
}
