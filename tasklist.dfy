/**
 * robert.task.TaskList: an ordered list of task objects. The list holds
 * references, so marking a task obtained from Get changes what the list
 * shows; Snapshot reads the current value of every task in it.
 */
module TaskLists {
  import opened Wrappers
  import opened Tasks

  /** The values of the tasks ts refers to, in order. */
  function Snapshot(ts: seq<Task>): (r: seq<TaskData>)
    reads set t | t in ts
    ensures |r| == |ts|
    ensures forall i :: 0 <= i < |ts| ==> r[i] == ts[i].Data()
  {
    if ts == [] then [] else Snapshot(ts[..|ts| - 1]) + [ts[|ts| - 1].Data()]
  }

  /** Appending a task appends its value. */
  lemma SnapshotAppend(ts: seq<Task>, t: Task)
    ensures Snapshot(ts + [t]) == Snapshot(ts) + [t.Data()]
  {
    assert (ts + [t])[..|ts|] == ts;
  }

  /** Removing the task at index k removes its value and keeps the others in order. */
  lemma SnapshotRemove(ts: seq<Task>, k: nat)
    requires k < |ts|
    ensures Snapshot(ts[..k] + ts[k + 1..]) == Snapshot(ts)[..k] + Snapshot(ts)[k + 1..]
  {
    var us := ts[..k] + ts[k + 1..];
    var a, b := Snapshot(us), Snapshot(ts)[..k] + Snapshot(ts)[k + 1..];
    assert |a| == |b|;
    forall i | 0 <= i < |a|
      ensures a[i] == b[i]
    {
      if i < k {
        assert us[i] == ts[i];
      } else {
        assert us[i] == ts[i + 1];
      }
    }
  }

  /** No task object occurs twice in ts. */
  predicate Distinct(ts: seq<Task>)
  {
    forall i, j :: 0 <= i < j < |ts| ==> ts[i] != ts[j]
  }

  /** A task not yet in a list of distinct tasks can be appended. */
  lemma DistinctAppend(ts: seq<Task>, t: Task)
    requires Distinct(ts) && t !in ts
    ensures Distinct(ts + [t])
  {
  }

  /** Removing one task keeps the others distinct. */
  lemma DistinctRemove(ts: seq<Task>, k: nat)
    requires Distinct(ts) && k < |ts|
    ensures Distinct(ts[..k] + ts[k + 1..])
  {
    var us := ts[..k] + ts[k + 1..];
    forall i, j | 0 <= i < j < |us|
      ensures us[i] != us[j]
    {
      var i', j' := if i < k then i else i + 1, if j < k then j else j + 1;
      assert us[i] == ts[i'] && us[j] == ts[j'];
    }
  }

  class TaskList {
    var tasks: seq<Task>

    /** An empty list. */
    constructor ()
      ensures tasks == []
    {
      tasks := [];
    }

    /** A list over tasks that were already made, such as those loaded from disk. */
    constructor FromList(ts: seq<Task>)
      ensures tasks == ts
    {
      tasks := ts;
    }

    /** Appends t at the end. */
    method Add(t: Task)
      modifies this
      ensures tasks == old(tasks) + [t]
      ensures Snapshot(tasks) == old(Snapshot(tasks)) + [t.Data()]
      ensures Distinct(old(tasks)) && t !in old(tasks) ==> Distinct(tasks)
    {
      SnapshotAppend(tasks, t);
      tasks := tasks + [t];
    }

    /**
     * The task at a zero-based index; None stands for the
     * IndexOutOfBoundsException of an index outside the list.
     */
    function Get(index: int): (r: Option<Task>)
      reads this
      ensures r.Some? <==> 0 <= index < |tasks|
      ensures r.Some? ==> r.value == tasks[index] && r.value in tasks
    {
      if 0 <= index < |tasks| then Some(tasks[index]) else None
    }

    /**
     * Removes and returns the task at a zero-based index; the tasks after it
     * move up by one. An index outside the list changes nothing.
     */
    method Remove(index: int) returns (r: Option<Task>)
      modifies this
      ensures 0 <= index < |old(tasks)| ==>
                r == Some(old(tasks)[index]) && tasks == old(tasks)[..index] + old(tasks)[index + 1..]
      ensures !(0 <= index < |old(tasks)|) ==> r == None && tasks == old(tasks)
      ensures 0 <= index < |old(tasks)| ==>
                Snapshot(tasks) == old(Snapshot(tasks))[..index] + old(Snapshot(tasks))[index + 1..]
      ensures Distinct(old(tasks)) ==> Distinct(tasks)
    {
      if 0 <= index < |tasks| {
        SnapshotRemove(tasks, index);
        if Distinct(tasks) {
          DistinctRemove(tasks, index);
        }
        r := Some(tasks[index]);
        tasks := tasks[..index] + tasks[index + 1..];
      } else {
        r := None;
      }
    }

    function Size(): (n: nat)
      reads this
      ensures n == |tasks|
    {
      |tasks|
    }

    /** The tasks in order, as the list that Storage.save writes. */
    function GetTasks(): (r: seq<Task>)
      reads this
      ensures |r| == Size()
      ensures forall i :: 0 <= i < |r| ==> Get(i) == Some(r[i])
    {
      tasks
    }
  }
}
