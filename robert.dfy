/**
 * robert.Robert: the chatbot object, which owns the storage and the task
 * list and runs the command loop. Every method here does its work on the
 * objects and is proved to end in the state and outcome the matching
 * function of Interpreter gives for the values it held before.
 */
module Robert {
  import opened Wrappers
  import opened JavaStrings
  import opened Dates
  import opened Tasks
  import opened TaskLists
  import Storage
  import Commands
  import Interpreter

  /** Outcomes already shown in front of the rest of a session. */
  function Then(outs: seq<Interpreter.Outcome>, s: Interpreter.Session): Interpreter.Session
  {
    Interpreter.Session(s.final, outs + s.outcomes)
  }

  /** One more command of a session: it either ends the loop or the rest of the input follows. */
  lemma ThenContinue(outs: seq<Interpreter.Outcome>, r: Interpreter.Result, rest: seq<Interpreter.Input>)
    ensures Interpreter.Stops(r.out) ==> Then(outs, Interpreter.Continue(r, rest)) == Interpreter.Session(r.m, outs + [r.out])
    ensures !Interpreter.Stops(r.out) ==> Then(outs, Interpreter.Continue(r, rest)) == Then(outs + [r.out], Interpreter.Run(r.m, rest))
  {
    if Interpreter.Stops(r.out) {
      assert Interpreter.Continue(r, rest) == Interpreter.Session(r.m, [r.out]);
    } else {
      var s := Interpreter.Run(r.m, rest);
      assert Interpreter.Continue(r, rest) == Interpreter.Session(s.final, [r.out] + s.outcomes);
      assert outs + ([r.out] + s.outcomes) == outs + [r.out] + s.outcomes;
    }
  }

  class Robert {
    const storage: Storage.Storage
    const tasks: TaskList

    /** The list never holds the same task object twice. */
    ghost predicate Valid()
      reads tasks
    {
      Distinct(tasks.tasks)
    }

    /** The values the objects hold: the tasks in order and the data file. */
    ghost function Abs(): Interpreter.Machine
      reads tasks, storage, set t | t in tasks.tasks
    {
      Interpreter.Machine(Snapshot(tasks.tasks), storage.file)
    }

    /** Every task in the list was there before or has been made since. */
    twostate predicate OnlyAdded()
      reads tasks
    {
      forall t :: t in tasks.tasks ==> t in old(tasks.tasks) || fresh(t)
    }

    constructor FromParts(storage: Storage.Storage, tasks: TaskList)
      ensures this.storage == storage && this.tasks == tasks
    {
      this.storage := storage;
      this.tasks := tasks;
    }

    /**
     * Robert's constructor: load the file; an IOException gives an empty
     * list, and any other exception of load reaches the caller (None).
     */
    static method Create(filePath: string, disk: Option<string>, ioFails: bool) returns (r: Option<Robert>)
      ensures r.None? <==> Interpreter.Boot(disk, ioFails).None?
      ensures r.Some? ==> fresh(r.value) && fresh(r.value.storage) && fresh(r.value.tasks)
      ensures r.Some? ==> r.value.Valid() && r.value.Abs() == Interpreter.Boot(disk, ioFails).value
      ensures r.Some? ==> r.value.storage.filePath == filePath
    {
      var storage := new Storage.Storage(filePath, disk);
      var loaded := storage.Load(ioFails);
      if loaded.Aborted? {
        r := None;
      } else if loaded.IoFailure? {
        var tasks := new TaskList();
        var robert := new Robert.FromParts(storage, tasks);
        r := Some(robert);
      } else {
        var tasks := new TaskList.FromList(loaded.tasks);
        var robert := new Robert.FromParts(storage, tasks);
        r := Some(robert);
      }
    }

    /**
     * The save every changing handler ends with: storage.save on the list,
     * then the reply, or the IOException run reports.
     */
    method SaveAndReply(ghost ts: seq<TaskData>, reply: seq<string>, fault: Option<Storage.SaveFault>) returns (out: Interpreter.Outcome)
      requires Snapshot(tasks.tasks) == ts
      modifies storage
      ensures Interpreter.Result(Abs(), out) == Interpreter.Persist(old(storage.file), ts, fault, reply)
    {
      var ok := storage.Save(tasks.GetTasks(), fault);
      if ok {
        out := Interpreter.Shown(reply);
      } else {
        out := Interpreter.Failed(Interpreter.SaveFailed);
      }
    }

    /** The end of handleTodo, handleDeadline and handleEvent: add t, save, reply. */
    method AddAndSave(t: Task, fault: Option<Storage.SaveFault>) returns (out: Interpreter.Outcome)
      requires Valid() && t !in tasks.tasks
      modifies tasks, storage
      ensures Valid() && tasks.tasks == old(tasks.tasks) + [t]
      ensures Interpreter.Result(Abs(), out) ==
                Interpreter.Persist(old(Abs()).file, old(Abs()).tasks + [t.Data()], fault,
                                    Interpreter.AddedReply(t.Data(), |old(tasks.tasks)| + 1))
    {
      ghost var before := Abs();
      tasks.Add(t);
      out := SaveAndReply(before.tasks + [t.Data()], Interpreter.AddedReply(t.Data(), tasks.Size()), fault);
    }

    method HandleTodo(description: string, fault: Option<Storage.SaveFault>) returns (out: Interpreter.Outcome)
      requires Valid()
      modifies tasks, storage
      ensures Valid()
      ensures OnlyAdded()
      ensures Interpreter.Result(Abs(), out) == Interpreter.HandleTodo(old(Abs()), description, fault)
    {
      if description == "" {
        return Interpreter.Failed(Interpreter.EmptyTodo);
      }
      var t := new Task(description, Todo);
      out := AddAndSave(t, fault);
    }

    method HandleDeadline(desc: string, fault: Option<Storage.SaveFault>) returns (out: Interpreter.Outcome)
      requires Valid()
      modifies tasks, storage
      ensures Valid()
      ensures OnlyAdded()
      ensures Interpreter.Result(Abs(), out) == Interpreter.HandleDeadline(old(Abs()), desc, fault)
    {
      match Interpreter.DeadlineFields(desc)
      case Refuse(e) =>
        out := Interpreter.Failed(e);
      case Fields(description, times) =>
        match ParseIso(times[0])
        case None =>
          out := Interpreter.Crash;
        case Some(date) =>
          var t := new Task(description, Deadline(date));
          out := AddAndSave(t, fault);
    }

    method HandleEvent(desc: string, fault: Option<Storage.SaveFault>) returns (out: Interpreter.Outcome)
      requires Valid()
      modifies tasks, storage
      ensures Valid()
      ensures OnlyAdded()
      ensures Interpreter.Result(Abs(), out) == Interpreter.HandleEvent(old(Abs()), desc, fault)
    {
      match Interpreter.EventFields(desc)
      case Refuse(e) =>
        out := Interpreter.Failed(e);
      case Fields(description, times) =>
        var t := new Task(description, Event(times[0], times[1]));
        out := AddAndSave(t, fault);
    }

    /** handleMark: the object get returns is marked, so the list shows the change. */
    method HandleMark(arg: string, fault: Option<Storage.SaveFault>) returns (out: Interpreter.Outcome)
      requires Valid()
      modifies storage, set t | t in tasks.tasks
      ensures Valid()
      ensures Interpreter.Result(Abs(), out) == Interpreter.HandleMark(old(Abs()), arg, fault)
    {
      ghost var m := Abs();
      var target := Interpreter.TaskIndex(tasks.Size(), arg, "mark");
      if target.Refused? {
        return Interpreter.Failed(target.e);
      } else if target.NotANumber? {
        return Interpreter.Crash;
      }
      var k := target.k;
      ghost var ts := m.tasks[k := m.tasks[k].(isDone := true)];
      var t := tasks.Get(k).value;
      t.MarkAsDone();
      forall i | 0 <= i < |tasks.tasks|
        ensures Snapshot(tasks.tasks)[i] == ts[i]
      {
        if i != k {
          assert tasks.tasks[i] != t;
        }
      }
      assert Snapshot(tasks.tasks) == ts;
      out := SaveAndReply(ts, Interpreter.MarkedReply(tasks.Get(k).value.Data()), fault);
    }

    method HandleUnmark(arg: string, fault: Option<Storage.SaveFault>) returns (out: Interpreter.Outcome)
      requires Valid()
      modifies storage, set t | t in tasks.tasks
      ensures Valid()
      ensures Interpreter.Result(Abs(), out) == Interpreter.HandleUnmark(old(Abs()), arg, fault)
    {
      ghost var m := Abs();
      var target := Interpreter.TaskIndex(tasks.Size(), arg, "unmark");
      if target.Refused? {
        return Interpreter.Failed(target.e);
      } else if target.NotANumber? {
        return Interpreter.Crash;
      }
      var k := target.k;
      ghost var ts := m.tasks[k := m.tasks[k].(isDone := false)];
      var t := tasks.Get(k).value;
      t.MarkAsNotDone();
      forall i | 0 <= i < |tasks.tasks|
        ensures Snapshot(tasks.tasks)[i] == ts[i]
      {
        if i != k {
          assert tasks.tasks[i] != t;
        }
      }
      assert Snapshot(tasks.tasks) == ts;
      out := SaveAndReply(ts, Interpreter.UnmarkedReply(tasks.Get(k).value.Data()), fault);
    }

    /** handleDelete: the task is removed from the list and the removed object is shown. */
    method HandleDelete(arg: string, fault: Option<Storage.SaveFault>) returns (out: Interpreter.Outcome)
      requires Valid()
      modifies tasks, storage
      ensures Valid()
      ensures OnlyAdded()
      ensures Interpreter.Result(Abs(), out) == Interpreter.HandleDelete(old(Abs()), arg, fault)
    {
      ghost var m := Abs();
      var target := Interpreter.TaskIndex(tasks.Size(), arg, "delete");
      if target.Refused? {
        assert Interpreter.HandleDelete(m, arg, fault) == Interpreter.Result(m, Interpreter.Failed(target.e));
        return Interpreter.Failed(target.e);
      } else if target.NotANumber? {
        assert Interpreter.HandleDelete(m, arg, fault) == Interpreter.Result(m, Interpreter.Crash);
        return Interpreter.Crash;
      }
      ghost var k := target.k;
      assert Interpreter.HandleDelete(m, arg, fault) ==
             Interpreter.Persist(m.file, m.tasks[..k] + m.tasks[k + 1..], fault, Interpreter.RemovedReply(m.tasks[k], |m.tasks| - 1));
      out := RemoveAndSave(target.k, m, fault);
    }

    /** The rest of handleDelete once the number is known to be in range; m is the state before. */
    method RemoveAndSave(k: nat, ghost m: Interpreter.Machine, fault: Option<Storage.SaveFault>) returns (out: Interpreter.Outcome)
      requires Valid() && k < |tasks.tasks| && m == Abs()
      modifies tasks, storage
      ensures Valid() && tasks.tasks == old(tasks.tasks)[..k] + old(tasks.tasks)[k + 1..]
      ensures Interpreter.Result(Abs(), out) ==
                Interpreter.Persist(m.file, m.tasks[..k] + m.tasks[k + 1..], fault, Interpreter.RemovedReply(m.tasks[k], |m.tasks| - 1))
    {
      var removed := tasks.Remove(k);
      assert removed.value.Data() == m.tasks[k];
      assert tasks.Size() == |m.tasks| - 1;
      var reply := Interpreter.RemovedReply(removed.value.Data(), tasks.Size());
      assert reply == Interpreter.RemovedReply(m.tasks[k], |m.tasks| - 1);
      ghost var ts := m.tasks[..k] + m.tasks[k + 1..];
      assert Snapshot(tasks.tasks) == ts;
      out := SaveAndReply(ts, reply, fault);
    }

    /** The list case of run: a heading, then one numbered line per task. */
    method ListLines() returns (lines: seq<string>)
      ensures lines == Interpreter.ListReply(Snapshot(tasks.tasks))
    {
      ghost var reply := Interpreter.ListReply(Snapshot(tasks.tasks));
      lines := [" Here are the tasks in your list:"];
      var i := 0;
      while i < tasks.Size()
        invariant 0 <= i <= |tasks.tasks|
        invariant |lines| == i + 1
        invariant forall j :: 0 <= j <= i ==> lines[j] == reply[j]
      {
        var line := " " + NatToString(i + 1) + "." + tasks.Get(i).value.ToString();
        assert line == reply[i + 1] by {
          assert tasks.Get(i).value.ToString() == Render(Snapshot(tasks.tasks)[i]);
        }
        ghost var prev := lines;
        lines := lines + [line];
        forall j | 0 <= j <= i + 1
          ensures lines[j] == reply[j]
        {
          if j <= i {
            assert lines[j] == prev[j];
          }
        }
        i := i + 1;
      }
    }

    /** The cases of run's switch that add a task: todo, deadline and event. */
    method HandleAdd(c: Commands.CommandType, arg: string, fault: Option<Storage.SaveFault>) returns (out: Interpreter.Outcome)
      requires Valid() && (c.Todo? || c.Deadline? || c.Event?)
      modifies tasks, storage
      ensures Interpreter.Result(Abs(), out) == Interpreter.Handle(old(Abs()), c, arg, fault)
      ensures Valid() && OnlyAdded()
    {
      if c.Todo? {
        out := HandleTodo(arg, fault);
      } else if c.Deadline? {
        out := HandleDeadline(arg, fault);
      } else {
        out := HandleEvent(arg, fault);
      }
    }

    /** The cases of run's switch that name a task by its number: mark, unmark and delete. */
    method HandleNumbered(c: Commands.CommandType, arg: string, fault: Option<Storage.SaveFault>) returns (out: Interpreter.Outcome)
      requires Valid() && (c.Mark? || c.Unmark? || c.Delete?)
      modifies tasks, storage, set t | t in tasks.tasks
      ensures Interpreter.Result(Abs(), out) == Interpreter.Handle(old(Abs()), c, arg, fault)
      ensures Valid() && OnlyAdded()
    {
      if c.Mark? {
        out := HandleMark(arg, fault);
      } else if c.Unmark? {
        out := HandleUnmark(arg, fault);
      } else {
        out := HandleDelete(arg, fault);
      }
    }

    /** The branch of run's switch for a command kind with a keyword. */
    method Handle(c: Commands.CommandType, arg: string, fault: Option<Storage.SaveFault>) returns (out: Interpreter.Outcome)
      requires Valid() && Commands.HasKeyword(c)
      modifies tasks, storage, set t | t in tasks.tasks
      ensures Interpreter.Result(Abs(), out) == Interpreter.Handle(old(Abs()), c, arg, fault)
      ensures Valid() && OnlyAdded()
    {
      match c
      case Bye =>
        out := Interpreter.Exit;
      case List =>
        var lines := ListLines();
        out := Interpreter.Shown(lines);
      case Todo | Deadline | Event =>
        out := HandleAdd(c, arg, fault);
      case Mark | Unmark | Delete =>
        out := HandleNumbered(c, arg, fault);
      case Find =>
        out := Interpreter.Failed(Interpreter.UnknownCommand);
      case Sort =>
        out := Interpreter.Failed(Interpreter.UnknownCommand);
    }

    /** One pass of run's loop over a line already read and trimmed. */
    method Step(fullCommand: string, fault: Option<Storage.SaveFault>) returns (out: Interpreter.Outcome)
      requires Valid()
      modifies tasks, storage, set t | t in tasks.tasks
      ensures Valid()
      ensures OnlyAdded()
      ensures Interpreter.Result(Abs(), out) == Interpreter.Step(old(Abs()), fullCommand, fault)
    {
      var c := Commands.Parse(fullCommand);
      if Commands.HasKeyword(c) {
        Commands.ParseKeywordPrefix(fullCommand, c);
        var arg := Trim(fullCommand[|Commands.Keyword(c)|..]);
        out := Handle(c, arg, fault);
      } else if c.Empty? {
        out := Interpreter.Failed(Interpreter.EmptyCommand);
      } else {
        out := Interpreter.Failed(Interpreter.UnknownCommand);
      }
    }

    /**
     * run: handle the lines in order until bye, an exception run does not
     * catch, or the end of the input; the outcomes are those Interpreter.Run
     * gives and the objects end in its final state.
     */
    method Run(inputs: seq<Interpreter.Input>) returns (outcomes: seq<Interpreter.Outcome>)
      requires Valid()
      modifies tasks, storage, set t | t in tasks.tasks
      ensures Valid()
      ensures OnlyAdded()
      ensures Interpreter.Session(Abs(), outcomes) == Interpreter.Run(old(Abs()), inputs)
    {
      outcomes := [];
      var isExit := false;
      var i := 0;
      while !isExit && i < |inputs|
        invariant 0 <= i <= |inputs|
        invariant Valid()
        invariant OnlyAdded()
        invariant !isExit ==> Interpreter.Run(old(Abs()), inputs) == Then(outcomes, Interpreter.Run(Abs(), inputs[i..]))
        invariant isExit ==> Interpreter.Run(old(Abs()), inputs) == Interpreter.Session(Abs(), outcomes)
        decreases |inputs| - i
      {
        ghost var before := Abs();
        var out := Step(Trim(inputs[i].line), inputs[i].fault);
        assert inputs[i..][1..] == inputs[i + 1..];
        assert Interpreter.Run(before, inputs[i..]) == Interpreter.Continue(Interpreter.Result(Abs(), out), inputs[i + 1..]);
        ThenContinue(outcomes, Interpreter.Result(Abs(), out), inputs[i + 1..]);
        outcomes := outcomes + [out];
        isExit := Interpreter.Stops(out);
        i := i + 1;
      }
    }
  }
}
