/**
 * The command semantics of robert.Robert on values: what one line of user
 * input does to the tasks and to the data file, and what the user is shown.
 * Robert's methods are proved against these functions.
 */
module Interpreter {
  import opened Wrappers
  import opened JavaStrings
  import opened Dates
  import opened Tasks
  import opened Storage
  import Commands

  /** The state a command acts on: the tasks' values and the content of the data file. */
  datatype Machine = Machine(tasks: seq<TaskData>, file: Option<string>)

  /** The causes of a shown error: each RobertException run catches, and a failed save. */
  datatype Error =
    | EmptyTodo
    | DeadlineWithoutBy | DeadlineIncomplete | DeadlineWithoutDescription | DeadlineWithoutTime
    | EventWithoutMarkers | EventWithoutFrom | EventWithoutTo | EventWithoutDescription | EventWithoutTimes
    | NoTaskNumber(verb: string)
    | TaskNumberOutOfRange
    | EmptyCommand
    | UnknownCommand
    | SaveFailed    // the IOException of save, caught by run

  /** The text run shows for each error. */
  function Message(e: Error): string
  {
    match e
    case EmptyTodo => "OOPS!!! The description of a todo should not be empty."
    case DeadlineWithoutBy => "OOPS!!! A deadline must have '/by <time>'!"
    case DeadlineIncomplete => "OOPS!!! A deadline must have a description and a time after '/by'."
    case DeadlineWithoutDescription => "OOPS!!! The description of a deadline cannot be empty."
    case DeadlineWithoutTime => "OOPS!!! The time of a deadline cannot be empty."
    case EventWithoutMarkers => "OOPS!!! An event must have '/from <start>' and '/to <end>'!"
    case EventWithoutFrom => "OOPS!!! Missing '/from' portion for event."
    case EventWithoutTo => "OOPS!!! Missing '/to' portion for event."
    case EventWithoutDescription => "OOPS!!! The description of an event cannot be empty."
    case EventWithoutTimes => "OOPS!!! The start and end times for an event cannot be empty."
    case NoTaskNumber(verb) => "Please specify which task to " + verb + "!"
    case TaskNumberOutOfRange => "Task number is out of range!"
    case EmptyCommand => "OOPS!!! You typed an empty command!"
    case UnknownCommand => "OOPS!!! What do you mean by that?"
    case SaveFailed => "OOPS!!! Unable to save tasks!"
  }

  /** How one command ends. */
  datatype Outcome =
    | Shown(reply: seq<string>)    // the command succeeded and printed these lines
    | Failed(error: Error)         // an exception run catches: its message is printed
    | Exit                         // bye: the loop ends
    | Crash                        // an exception run does not catch ends the program

  /** The lines the user sees for an outcome. */
  function Printed(out: Outcome): seq<string>
  {
    match out
    case Shown(reply) => reply
    case Failed(e) => [Message(e)]
    case Exit => [" Bye. Hope to see you again soon!"]
    case Crash => []
  }

  datatype Result = Result(m: Machine, out: Outcome)

  /**
   * The mutation is already made when save runs: a successful save writes
   * every task and the reply is shown; a failed one keeps the change in
   * memory, leaves in the file what the fault lets through (the old content,
   * or the start of the new text, see Storage.Save), and run shows the save
   * error.
   */
  function Persist(file: Option<string>, ts: seq<TaskData>, fault: Option<SaveFault>, reply: seq<string>): (r: Result)
    ensures r.m.tasks == ts
    ensures fault.None? ==> r == Result(Machine(ts, Some(SaveText(ts))), Shown(reply))
    ensures fault.Some? ==> r.out == Failed(SaveFailed)
    ensures fault == Some(OpenFailed) ==> r.m.file == file
    ensures fault.Some? && fault.value.WriteFailed? ==> r.m.file.Some? && r.m.file.value <= SaveText(ts)
  {
    match fault
    case None => Result(Machine(ts, Some(SaveText(ts))), Shown(reply))
    case Some(OpenFailed) => Result(Machine(ts, file), Failed(SaveFailed))
    case Some(WriteFailed(k)) => Result(Machine(ts, Some(Reached(SaveText(ts), k))), Failed(SaveFailed))
  }

  /** The reply to an added task. */
  function AddedReply(t: TaskData, size: nat): seq<string>
  {
    [" Got it. I've added this task:", "   " + Render(t), " Now you have " + NatToString(size) + " tasks in the list."]
  }

  /** handleTodo: a non-empty description adds a new to-do. */
  function HandleTodo(m: Machine, description: string, fault: Option<SaveFault>): Result
  {
    if description == "" then Result(m, Failed(EmptyTodo))
    else
      var t := Fresh(description, Todo);
      Persist(m.file, m.tasks + [t], fault, AddedReply(t, |m.tasks| + 1))
  }

  /** The checks of handleDeadline and handleEvent end in an error or in the task's fields. */
  datatype Fields = Refuse(e: Error) | Fields(description: string, times: seq<string>)

  /** Characters of t all occur in s. */
  predicate Within(t: string, s: string)
  {
    forall c :: c in t ==> c in s
  }

  /**
   * The checks of handleDeadline, in its order: the argument is split at
   * every "/by"; the trimmed first piece is the description and the trimmed
   * second piece the date text, and neither may be empty. Each refusal is
   * stated by what the text looks like: the description is what precedes
   * the first "/by", the date text what follows it up to the next "/by".
   */
  function DeadlineFields(desc: string): (r: Fields)
    ensures r.Fields? ==> |r.times| == 1 && r.description != "" && r.times[0] != ""
    ensures r.Fields? ==> Trimmed(r.description) && Trimmed(r.times[0])
    ensures r.Fields? ==> Within(r.description, desc) && Within(r.times[0], desc)
    ensures r == Refuse(DeadlineWithoutBy) <==> !Contains(desc, "/by")
  {
    if !Contains(desc, "/by") then Refuse(DeadlineWithoutBy)
    else
      var parts := Split(desc, "/by");
      if |parts| < 2 then Refuse(DeadlineIncomplete)
      else
        var description, byText := Trim(parts[0]), Trim(parts[1]);
        if description == "" then Refuse(DeadlineWithoutDescription)
        else if byText == "" then Refuse(DeadlineWithoutTime)
        else
          SplitChars(desc, "/by");
          TrimFacts(parts[0]);
          TrimFacts(parts[1]);
          Fields(description, [byText])
  }

  /**
   * Each outcome of handleDeadline's checks, by what the text looks like:
   * the description is what precedes the first "/by", the date text what
   * follows it up to the next "/by"; split yields fewer than two pieces
   * exactly when nothing but further "/by"s follows the first one.
   */
  lemma DeadlineChecks(desc: string)
    ensures var r := DeadlineFields(desc);
      && (r == Refuse(DeadlineWithoutBy) <==> !Contains(desc, "/by"))
      && (r == Refuse(DeadlineIncomplete) <==> Contains(desc, "/by") && !SplitsInTwo(desc, "/by"))
      && (r == Refuse(DeadlineWithoutDescription) <==>
            SplitsInTwo(desc, "/by") && Trim(Before(desc, "/by")) == "")
      && (r == Refuse(DeadlineWithoutTime) <==>
            SplitsInTwo(desc, "/by") && Trim(Before(desc, "/by")) != "" && Trim(SecondPiece(desc, "/by")) == "")
      && (r.Fields? <==>
            SplitsInTwo(desc, "/by") && Trim(Before(desc, "/by")) != "" && Trim(SecondPiece(desc, "/by")) != "")
      && (r.Fields? ==> r == Fields(Trim(Before(desc, "/by")), [Trim(SecondPiece(desc, "/by"))]))
  {
    SplitTwoPieces(desc, "/by");
  }

  /**
   * handleDeadline: after the checks, Deadline's constructor parses the
   * date (None: the DateTimeParseException, which run does not catch).
   */
  function HandleDeadline(m: Machine, desc: string, fault: Option<SaveFault>): Result
  {
    match DeadlineFields(desc)
    case Refuse(e) => Result(m, Failed(e))
    case Fields(description, times) =>
      match NewDeadline(description, times[0])
      case None => Result(m, Crash)
      case Some(t) => Persist(m.file, m.tasks + [t], fault, AddedReply(t, |m.tasks| + 1))
  }

  /**
   * The start-and-end text of an event argument: what follows the first
   * "/from" up to the next one, trimmed; it is then split at "/to".
   */
  function Times(desc: string): string
    requires Contains(desc, "/from")
  {
    Trim(SecondPiece(desc, "/from"))
  }

  /**
   * The checks of handleEvent, in its order: both markers must occur; the
   * text is split at "/from", the trimmed remainder split at "/to", every
   * piece trimmed, and none may be empty.
   */
  function EventFields(desc: string): (r: Fields)
    ensures r.Fields? ==> |r.times| == 2 && r.description != "" && r.times[0] != "" && r.times[1] != ""
    ensures r.Fields? ==> Trimmed(r.description) && Trimmed(r.times[0]) && Trimmed(r.times[1])
    ensures r.Fields? ==> Within(r.description, desc) && Within(r.times[0], desc) && Within(r.times[1], desc)
    ensures r == Refuse(EventWithoutMarkers) <==> !Contains(desc, "/from") || !Contains(desc, "/to")
  {
    if !Contains(desc, "/from") || !Contains(desc, "/to") then Refuse(EventWithoutMarkers)
    else
      var fromSplit := Split(desc, "/from");
      if |fromSplit| < 2 then Refuse(EventWithoutFrom)
      else
        var description, startAndEnd := Trim(fromSplit[0]), Trim(fromSplit[1]);
        var toSplit := Split(startAndEnd, "/to");
        if |toSplit| < 2 then Refuse(EventWithoutTo)
        else
          var start, end := Trim(toSplit[0]), Trim(toSplit[1]);
          if description == "" then Refuse(EventWithoutDescription)
          else if start == "" || end == "" then Refuse(EventWithoutTimes)
          else
            SplitChars(desc, "/from");
            TrimFacts(fromSplit[0]);
            TrimFacts(fromSplit[1]);
            SplitChars(startAndEnd, "/to");
            TrimFacts(toSplit[0]);
            TrimFacts(toSplit[1]);
            Fields(description, [start, end])
  }

  /**
   * Each outcome of handleEvent's checks, by what the text looks like: the
   * description is what precedes the first "/from"; the start and end are
   * what precede and follow the first "/to" of Times(desc), the latter up
   * to the next "/to".
   */
  lemma EventChecks(desc: string)
    ensures var r := EventFields(desc);
      && (r == Refuse(EventWithoutMarkers) <==> !Contains(desc, "/from") || !Contains(desc, "/to"))
      && (r == Refuse(EventWithoutFrom) <==>
            Contains(desc, "/from") && Contains(desc, "/to") && !SplitsInTwo(desc, "/from"))
      && (r == Refuse(EventWithoutTo) <==>
            Contains(desc, "/to") && SplitsInTwo(desc, "/from") && !SplitsInTwo(Times(desc), "/to"))
      && (r == Refuse(EventWithoutDescription) <==>
            Contains(desc, "/to") && SplitsInTwo(desc, "/from") && SplitsInTwo(Times(desc), "/to")
            && Trim(Before(desc, "/from")) == "")
      && (r == Refuse(EventWithoutTimes) <==>
            Contains(desc, "/to") && SplitsInTwo(desc, "/from") && SplitsInTwo(Times(desc), "/to")
            && Trim(Before(desc, "/from")) != ""
            && (Trim(Before(Times(desc), "/to")) == "" || Trim(SecondPiece(Times(desc), "/to")) == ""))
      && (r.Fields? <==>
            Contains(desc, "/to") && SplitsInTwo(desc, "/from") && SplitsInTwo(Times(desc), "/to")
            && Trim(Before(desc, "/from")) != ""
            && Trim(Before(Times(desc), "/to")) != "" && Trim(SecondPiece(Times(desc), "/to")) != "")
      && (r.Fields? ==>
            r == Fields(Trim(Before(desc, "/from")),
                        [Trim(Before(Times(desc), "/to")), Trim(SecondPiece(Times(desc), "/to"))]))
  {
    if Contains(desc, "/from") && Contains(desc, "/to") {
      SplitTwoPieces(desc, "/from");
      if SplitsInTwo(desc, "/from") {
        SplitTwoPieces(Times(desc), "/to");
      }
    }
  }

  /** handleEvent: after the checks, an event is added and saved. */
  function HandleEvent(m: Machine, desc: string, fault: Option<SaveFault>): Result
  {
    match EventFields(desc)
    case Refuse(e) => Result(m, Failed(e))
    case Fields(description, times) =>
      var t := Fresh(description, Event(times[0], times[1]));
      Persist(m.file, m.tasks + [t], fault, AddedReply(t, |m.tasks| + 1))
  }

  /** Which task a task-number argument names. */
  datatype Target =
    | Index(k: nat)        // the zero-based position of the task
    | Refused(e: Error)    // a RobertException: no number, or one out of range
    | NotANumber           // Integer.parseInt's NumberFormatException, which run does not catch

  /**
   * The checks handleMark, handleUnmark and handleDelete share: an argument,
   * then a number from 1 to the size of the list.
   */
  function TaskIndex(size: nat, arg: string, verb: string): (r: Target)
    ensures r.Index? ==> r.k < size && ParseInt(arg) == Some(r.k + 1)
    ensures r.NotANumber? <==> arg != "" && ParseInt(arg).None?
    ensures r.Refused? <==> arg == "" || (ParseInt(arg).Some? && !(1 <= ParseInt(arg).value <= size))
    ensures r == Refused(NoTaskNumber(verb)) <==> arg == ""
    ensures r == Refused(TaskNumberOutOfRange)
            <==> arg != "" && ParseInt(arg).Some? && !(1 <= ParseInt(arg).value <= size)
  {
    if arg == "" then Refused(NoTaskNumber(verb))
    else
      match ParseInt(arg)
      case None => NotANumber
      case Some(n) => if n < 1 || n > size then Refused(TaskNumberOutOfRange) else Index(n - 1)
  }

  /** The replies to mark, unmark and delete. */
  function MarkedReply(t: TaskData): seq<string>
  {
    [" Nice! I've marked this task as done:", "   " + Render(t)]
  }

  function UnmarkedReply(t: TaskData): seq<string>
  {
    [" OK, I've marked this task as not done yet:", "   " + Render(t)]
  }

  function RemovedReply(t: TaskData, size: nat): seq<string>
  {
    [" Noted. I've removed this task:", "   " + Render(t), " Now you have " + NatToString(size) + " tasks in the list."]
  }

  /** handleMark: the task with that number is done. */
  function HandleMark(m: Machine, arg: string, fault: Option<SaveFault>): Result
  {
    match TaskIndex(|m.tasks|, arg, "mark")
    case Refused(e) => Result(m, Failed(e))
    case NotANumber => Result(m, Crash)
    case Index(k) =>
      var ts := m.tasks[k := m.tasks[k].(isDone := true)];
      Persist(m.file, ts, fault, MarkedReply(ts[k]))
  }

  /** handleUnmark: the task with that number is not done. */
  function HandleUnmark(m: Machine, arg: string, fault: Option<SaveFault>): Result
  {
    match TaskIndex(|m.tasks|, arg, "unmark")
    case Refused(e) => Result(m, Failed(e))
    case NotANumber => Result(m, Crash)
    case Index(k) =>
      var ts := m.tasks[k := m.tasks[k].(isDone := false)];
      Persist(m.file, ts, fault, UnmarkedReply(ts[k]))
  }

  /** handleDelete: the task with that number is removed. */
  function HandleDelete(m: Machine, arg: string, fault: Option<SaveFault>): Result
  {
    match TaskIndex(|m.tasks|, arg, "delete")
    case Refused(e) => Result(m, Failed(e))
    case NotANumber => Result(m, Crash)
    case Index(k) =>
      var ts := m.tasks[..k] + m.tasks[k + 1..];
      Persist(m.file, ts, fault, RemovedReply(m.tasks[k], |ts|))
  }

  /** The reply to list: a heading, then each task numbered from 1 in order. */
  function ListReply(ts: seq<TaskData>): (r: seq<string>)
    ensures |r| == |ts| + 1 && r[0] == " Here are the tasks in your list:"
    ensures forall i :: 0 <= i < |ts| ==> r[i + 1] == " " + NatToString(i + 1) + "." + Render(ts[i])
  {
    [" Here are the tasks in your list:"]
      + seq(|ts|, i requires 0 <= i < |ts| => " " + NatToString(i + 1) + "." + Render(ts[i]))
  }

  /**
   * The argument a handler receives: the line after the keyword's length,
   * trimmed (fullCommand.substring(keyword.length()).trim()).
   */
  function Argument(fullCommand: string, c: Commands.CommandType): string
    requires Commands.HasKeyword(c) && |Commands.Keyword(c)| <= |fullCommand|
  {
    Trim(fullCommand[|Commands.Keyword(c)|..])
  }

  /** One pass of run's loop over a line read from the console. */
  function Step(m: Machine, fullCommand: string, fault: Option<SaveFault>): Result
  {
    var c := Commands.Parse(fullCommand);
    if Commands.HasKeyword(c) then Commands.ParseKeywordPrefix(fullCommand, c); Handle(m, c, Argument(fullCommand, c), fault)
    else if c.Empty? then Result(m, Failed(EmptyCommand))
    else Result(m, Failed(UnknownCommand))
  }

  /** The branch of run's switch for a command with a keyword, given its argument. */
  function Handle(m: Machine, c: Commands.CommandType, arg: string, fault: Option<SaveFault>): Result
    requires Commands.HasKeyword(c)
  {
    match c
    case Bye => Result(m, Exit)
    case List => Result(m, Shown(ListReply(m.tasks)))
    case Todo => HandleTodo(m, arg, fault)
    case Deadline => HandleDeadline(m, arg, fault)
    case Event => HandleEvent(m, arg, fault)
    case Mark => HandleMark(m, arg, fault)
    case Unmark => HandleUnmark(m, arg, fault)
    case Delete => HandleDelete(m, arg, fault)
    case Find => Result(m, Failed(UnknownCommand))    // find and sort have no case: the default branch
    case Sort => Result(m, Failed(UnknownCommand))
  }

  /** A console line, and the fault its save would meet (see Storage.Save). */
  datatype Input = Input(line: string, fault: Option<SaveFault>)

  /** What run does with the lines typed: the final state and the outcome of each command. */
  datatype Session = Session(final: Machine, outcomes: seq<Outcome>)

  /** The outcomes that end run's loop: bye, and an exception run does not catch. */
  predicate Stops(out: Outcome)
  {
    out.Exit? || out.Crash?
  }

  /** Only the last outcome of a session may end the loop, and it does unless the input ran out. */
  predicate Ended(s: Session, inputs: seq<Input>)
  {
    && |s.outcomes| <= |inputs|
    && (forall i :: 0 <= i < |s.outcomes| - 1 ==> !Stops(s.outcomes[i]))
    && (|s.outcomes| < |inputs| ==> s.outcomes != [] && Stops(s.outcomes[|s.outcomes| - 1]))
  }

  /**
   * run: each line is trimmed (Ui.readCommand) and handled; the loop ends
   * after bye, after an uncaught exception, or when the input runs out.
   */
  function Run(m: Machine, inputs: seq<Input>): (s: Session)
    decreases |inputs|, 0
    ensures Ended(s, inputs)
  {
    if inputs == [] then Session(m, [])
    else Continue(Step(m, Trim(inputs[0].line), inputs[0].fault), inputs[1..])
  }

  /** The rest of run's loop once a command has had result r. */
  function Continue(r: Result, rest: seq<Input>): (s: Session)
    decreases |rest|, 1
    ensures Ended(s, [Input([], None)] + rest)
    ensures s.outcomes != [] && s.outcomes[0] == r.out
  {
    if Stops(r.out) then Session(r.m, [r.out])
    else
      var s := Run(r.m, rest);
      Session(s.final, [r.out] + s.outcomes)
  }

  /**
   * The constructor's load: None when the load ends in an exception the
   * constructor does not catch; an IOException gives an empty list.
   */
  function Boot(disk: Option<string>, ioFails: bool): (r: Option<Machine>)
    ensures r.None? <==> !ioFails && disk.Some? && LoadText(disk.value).None?
  {
    if ioFails then Some(Machine([], disk))
    else if disk.None? then Some(Machine([], Some("")))
    else match LoadText(disk.value)
      case None => None
      case Some(ts) => Some(Machine(ts, disk))
  }

  // ------------------------------------------------------ one command

  /** A handler receives the trimmed text after the keyword and its space. */
  lemma ArgumentOfKeywordLine(c: Commands.CommandType, rest: string)
    requires Commands.HasKeyword(c)
    ensures Commands.Parse(Commands.Keyword(c) + " " + rest) == c
    ensures Argument(Commands.Keyword(c) + " " + rest, c) == Trim(rest)
  {
    Commands.ParseKeywordLine(c, rest);
    TrimAfterWord(Commands.Keyword(c), rest);
  }

  /** The text after a word and a space, trimmed, is the rest trimmed. */
  lemma TrimAfterWord(w: string, rest: string)
    ensures |w| <= |w + " " + rest|
    ensures Trim((w + " " + rest)[|w|..]) == Trim(rest)
  {
    assert (w + " " + rest)[|w|..] == " " + rest;
    TrimBlankPrefix(" ", rest);
  }

  /** A keyword alone runs the keyword's branch on an empty argument. */
  lemma StepKeywordAlone(m: Machine, c: Commands.CommandType, fault: Option<SaveFault>)
    requires Commands.HasKeyword(c)
    ensures Step(m, Commands.Keyword(c), fault) == Handle(m, c, "", fault)
  {
    ArgumentOfKeyword(c);
  }

  /** A keyword line runs the keyword's branch on the trimmed rest of the line. */
  lemma StepKeywordLine(m: Machine, c: Commands.CommandType, rest: string, fault: Option<SaveFault>)
    requires Commands.HasKeyword(c)
    ensures Step(m, Commands.Keyword(c) + " " + rest, fault) == Handle(m, c, Trim(rest), fault)
  {
    ArgumentOfKeywordLine(c, rest);
  }

  /** list shows every task, numbered from 1, and changes nothing. */
  lemma StepList(m: Machine, fault: Option<SaveFault>)
    ensures Step(m, "list", fault) == Result(m, Shown(ListReply(m.tasks)))
  {
    assert "list" == Commands.Keyword(Commands.List);
    StepKeywordAlone(m, Commands.List, fault);
  }

  /** A keyword alone gives its handler an empty argument. */
  lemma ArgumentOfKeyword(c: Commands.CommandType)
    requires Commands.HasKeyword(c)
    ensures Commands.Parse(Commands.Keyword(c)) == c
    ensures Argument(Commands.Keyword(c), c) == ""
  {
    var k := Commands.Keyword(c);
    Commands.ParseOneWord(k);
    assert !IsTrimmable(k[0]);
    assert ToLower(k) == k;
    Commands.ParseCommandKeyword(k, c);
    assert k[|k|..] == "";
  }

  /** A line starting "todo " runs handleTodo on the trimmed rest. */
  lemma RunsTodo(m: Machine, rest: string, fault: Option<SaveFault>)
    ensures Step(m, "todo " + rest, fault) == HandleTodo(m, Trim(rest), fault)
  {
    assert "todo " + rest == Commands.Keyword(Commands.Todo) + " " + rest;
    StepKeywordLine(m, Commands.Todo, rest, fault);
  }

  /** A line starting "deadline " runs handleDeadline on the trimmed rest. */
  lemma RunsDeadline(m: Machine, rest: string, fault: Option<SaveFault>)
    ensures Step(m, "deadline " + rest, fault) == HandleDeadline(m, Trim(rest), fault)
  {
    assert "deadline " + rest == Commands.Keyword(Commands.Deadline) + " " + rest;
    StepKeywordLine(m, Commands.Deadline, rest, fault);
  }

  /** A line starting "event " runs handleEvent on the trimmed rest. */
  lemma RunsEvent(m: Machine, rest: string, fault: Option<SaveFault>)
    ensures Step(m, "event " + rest, fault) == HandleEvent(m, Trim(rest), fault)
  {
    assert "event " + rest == Commands.Keyword(Commands.Event) + " " + rest;
    StepKeywordLine(m, Commands.Event, rest, fault);
  }

  /** A line starting "mark " runs handleMark on the trimmed rest. */
  lemma RunsMark(m: Machine, rest: string, fault: Option<SaveFault>)
    ensures Step(m, "mark " + rest, fault) == HandleMark(m, Trim(rest), fault)
  {
    assert "mark " + rest == Commands.Keyword(Commands.Mark) + " " + rest;
    StepKeywordLine(m, Commands.Mark, rest, fault);
  }

  /** A line starting "unmark " runs handleUnmark on the trimmed rest. */
  lemma RunsUnmark(m: Machine, rest: string, fault: Option<SaveFault>)
    ensures Step(m, "unmark " + rest, fault) == HandleUnmark(m, Trim(rest), fault)
  {
    assert "unmark " + rest == Commands.Keyword(Commands.Unmark) + " " + rest;
    StepKeywordLine(m, Commands.Unmark, rest, fault);
  }

  /** A line starting "delete " runs handleDelete on the trimmed rest. */
  lemma RunsDelete(m: Machine, rest: string, fault: Option<SaveFault>)
    ensures Step(m, "delete " + rest, fault) == HandleDelete(m, Trim(rest), fault)
  {
    assert "delete " + rest == Commands.Keyword(Commands.Delete) + " " + rest;
    StepKeywordLine(m, Commands.Delete, rest, fault);
  }

  /** A task's state is what it was, or every task is saved (fault None) or the save error shown. */
  predicate Commits(m: Machine, r: Result, fault: Option<SaveFault>)
  {
    && (r.m != m ==> fault.None? ==> r.out.Shown? && r.m.file == Some(SaveText(r.m.tasks)))
    && (r.m != m ==> fault.Some? ==> r.out == Failed(SaveFailed))
    && (Stops(r.out) || (r.out.Failed? && r.out.error != SaveFailed) ==> r.m == m)
  }

  /** todo: an empty description is refused, any other is added as a new to-do and saved. */
  lemma StepTodo(m: Machine, rest: string, fault: Option<SaveFault>)
    ensures var r := Step(m, "todo " + rest, fault);
      && (AllTrimmable(rest) ==> r == Result(m, Failed(EmptyTodo)))
      && (!AllTrimmable(rest) ==> r.m.tasks == m.tasks + [Fresh(Trim(rest), Todo)])
      && (!AllTrimmable(rest) && fault.None? ==>
            r.out == Shown(AddedReply(Fresh(Trim(rest), Todo), |m.tasks| + 1)))
      && Commits(m, r, fault)
  {
    RunsTodo(m, rest, fault);
    TrimFacts(rest);
    TodoSpec(m, Trim(rest), fault);
  }

  /** handleTodo on any argument: refused when empty, otherwise one new to-do, saved. */
  lemma TodoSpec(m: Machine, arg: string, fault: Option<SaveFault>)
    ensures var r := HandleTodo(m, arg, fault);
      && (arg == "" ==> r == Result(m, Failed(EmptyTodo)))
      && (arg != "" ==> r.m.tasks == m.tasks + [Fresh(arg, Todo)])
      && (arg != "" && fault.None? ==> r.out == Shown(AddedReply(Fresh(arg, Todo), |m.tasks| + 1)))
      && Commits(m, r, fault)
  {
  }

  /** The number names the task at that position: its checks and the value they lead to. */
  lemma TaskIndexOfNumber(size: nat, n: nat, verb: string)
    requires n <= MaxInt
    ensures Trim(NatToString(n)) == NatToString(n)
    ensures TaskIndex(size, NatToString(n), verb) ==
              if 1 <= n <= size then Index(n - 1) else Refused(TaskNumberOutOfRange)
  {
    var w := NatToString(n);
    assert !IsTrimmable(w[0]) && !IsTrimmable(w[|w| - 1]);
    TrimOfTrimmed(w);
    ParseIntOfNatToString(n);
  }

  /** mark n: the n-th task, and no other, becomes done; a number out of range changes nothing. */
  lemma StepMark(m: Machine, n: nat, fault: Option<SaveFault>)
    requires n <= MaxInt
    ensures var r := Step(m, "mark " + NatToString(n), fault);
      && (1 <= n <= |m.tasks| ==> r.m.tasks == m.tasks[n - 1 := m.tasks[n - 1].(isDone := true)])
      && (!(1 <= n <= |m.tasks|) ==> r == Result(m, Failed(TaskNumberOutOfRange)))
      && Commits(m, r, fault)
  {
    RunsMark(m, NatToString(n), fault);
    TaskIndexOfNumber(|m.tasks|, n, "mark");
    MarkSpec(m, NatToString(n), fault);
  }

  /** handleMark on any argument: the one task changed, or the reason nothing changed. */
  lemma MarkSpec(m: Machine, arg: string, fault: Option<SaveFault>)
    ensures var r := HandleMark(m, arg, fault);
      && (TaskIndex(|m.tasks|, arg, "mark").Index? ==>
            var k := TaskIndex(|m.tasks|, arg, "mark").k;
            && r.m.tasks == m.tasks[k := m.tasks[k].(isDone := true)]
            && (fault.None? ==> r.out == Shown(MarkedReply(r.m.tasks[k])) && Synced(r.m)))
      && (TaskIndex(|m.tasks|, arg, "mark").Refused? ==> r == Result(m, Failed(TaskIndex(|m.tasks|, arg, "mark").e)))
      && (TaskIndex(|m.tasks|, arg, "mark").NotANumber? ==> r == Result(m, Crash))
      && Commits(m, r, fault)
  {
  }

  /** unmark n: the n-th task, and no other, becomes not done; a number out of range changes nothing. */
  lemma StepUnmark(m: Machine, n: nat, fault: Option<SaveFault>)
    requires n <= MaxInt
    ensures var r := Step(m, "unmark " + NatToString(n), fault);
      && (1 <= n <= |m.tasks| ==> r.m.tasks == m.tasks[n - 1 := m.tasks[n - 1].(isDone := false)])
      && (!(1 <= n <= |m.tasks|) ==> r == Result(m, Failed(TaskNumberOutOfRange)))
      && Commits(m, r, fault)
  {
    RunsUnmark(m, NatToString(n), fault);
    TaskIndexOfNumber(|m.tasks|, n, "unmark");
    UnmarkSpec(m, NatToString(n), fault);
  }

  /** handleUnmark on any argument: the one task changed, or the reason nothing changed. */
  lemma UnmarkSpec(m: Machine, arg: string, fault: Option<SaveFault>)
    ensures var r := HandleUnmark(m, arg, fault);
      && (TaskIndex(|m.tasks|, arg, "unmark").Index? ==>
            var k := TaskIndex(|m.tasks|, arg, "unmark").k;
            && r.m.tasks == m.tasks[k := m.tasks[k].(isDone := false)]
            && (fault.None? ==> r.out == Shown(UnmarkedReply(r.m.tasks[k])) && Synced(r.m)))
      && (TaskIndex(|m.tasks|, arg, "unmark").Refused? ==> r == Result(m, Failed(TaskIndex(|m.tasks|, arg, "unmark").e)))
      && (TaskIndex(|m.tasks|, arg, "unmark").NotANumber? ==> r == Result(m, Crash))
      && Commits(m, r, fault)
  {
  }

  /** delete n: the n-th task is removed, the others keep their order, and the reply shows it. */
  lemma StepDelete(m: Machine, n: nat, fault: Option<SaveFault>)
    requires n <= MaxInt
    ensures DeletedNumber(m, n, fault, Step(m, "delete " + NatToString(n), fault))
  {
    var w := NatToString(n);
    TaskIndexOfNumber(|m.tasks|, n, "delete");
    assert Step(m, "delete " + w, fault) == HandleDelete(m, w, fault) by {
      RunsDelete(m, w, fault);
    }
    DeleteNumber(m, n, fault);
  }

  /** The outcome of deleting task number n. */
  predicate DeletedNumber(m: Machine, n: nat, fault: Option<SaveFault>, r: Result)
  {
    && (1 <= n <= |m.tasks| ==> r.m.tasks == m.tasks[..n - 1] + m.tasks[n..])
    && (1 <= n <= |m.tasks| && fault.None? ==>
          r.out == Shown([" Noted. I've removed this task:", "   " + Render(m.tasks[n - 1]),
                          " Now you have " + NatToString(|m.tasks| - 1) + " tasks in the list."]))
    && (!(1 <= n <= |m.tasks|) ==> r == Result(m, Failed(TaskNumberOutOfRange)))
    && Commits(m, r, fault)
  }

  /** handleDelete on the printed number n. */
  lemma DeleteNumber(m: Machine, n: nat, fault: Option<SaveFault>)
    requires n <= MaxInt
    ensures DeletedNumber(m, n, fault, HandleDelete(m, NatToString(n), fault))
  {
    var w := NatToString(n);
    TaskIndexOfNumber(|m.tasks|, n, "delete");
    DeleteSpec(m, w, fault);
    if 1 <= n <= |m.tasks| {
      assert TaskIndex(|m.tasks|, w, "delete") == Index(n - 1);
      assert m.tasks[n - 1 + 1..] == m.tasks[n..];
    } else {
      assert TaskIndex(|m.tasks|, w, "delete").Refused?;
    }
  }

  /** handleDelete on any argument: the task removed, or the reason nothing changed. */
  lemma DeleteSpec(m: Machine, arg: string, fault: Option<SaveFault>)
    ensures var r := HandleDelete(m, arg, fault);
      && (TaskIndex(|m.tasks|, arg, "delete").Index? ==>
            var k := TaskIndex(|m.tasks|, arg, "delete").k;
            && r.m.tasks == m.tasks[..k] + m.tasks[k + 1..]
            && (fault.None? ==>
                  r.out == Shown([" Noted. I've removed this task:", "   " + Render(m.tasks[k]),
                                  " Now you have " + NatToString(|m.tasks| - 1) + " tasks in the list."])
                  && Synced(r.m)))
      && (TaskIndex(|m.tasks|, arg, "delete").Refused? ==> r == Result(m, Failed(TaskIndex(|m.tasks|, arg, "delete").e)))
      && (TaskIndex(|m.tasks|, arg, "delete").NotANumber? ==> r == Result(m, Crash))
      && Commits(m, r, fault)
  {
  }

  /**
   * Marking a task and then unmarking it gives back the tasks exactly when
   * the task was not done before.
   */
  lemma MarkThenUnmark(m: Machine, arg: string)
    requires TaskIndex(|m.tasks|, arg, "mark").Index?
    ensures var k := TaskIndex(|m.tasks|, arg, "mark").k;
      HandleUnmark(HandleMark(m, arg, None).m, arg, None).m.tasks == m.tasks <==> !m.tasks[k].isDone
  {
    var k := TaskIndex(|m.tasks|, arg, "mark").k;
    var back := HandleUnmark(HandleMark(m, arg, None).m, arg, None).m.tasks;
    assert back[k] == m.tasks[k].(isDone := false);
    if !m.tasks[k].isDone {
      assert back[k] == m.tasks[k];
    }
  }

  // ------------------------------------------------- deadline and event

  /** Text typed between the markers: non-empty, trimmed, and without '/'. */
  predicate Word(s: string)
  {
    s != [] && Trimmed(s) && '/' !in s
  }

  /** Two words with a space between them trim to themselves. */
  lemma WordsTrimmed(a: string, mid: string, b: string)
    requires Word(a) && Word(b)
    ensures Trimmed(a + mid + b) && a + mid + b != []
  {
    assert (a + mid + b)[0] == a[0];
    assert (a + mid + b)[|a + mid + b| - 1] == b[|b| - 1];
  }

  /**
   * What handleDeadline does with any argument desc: a refusal changes
   * nothing; otherwise the description is the trimmed text before the first
   * "/by" and the date the trimmed text after it up to the next; an ISO date
   * adds the deadline and saves it, anything else is the uncaught
   * DateTimeParseException.
   */
  predicate DeadlineOutcome(m: Machine, desc: string, fault: Option<SaveFault>, r: Result)
  {
    && (DeadlineFields(desc).Refuse? ==> r == Result(m, Failed(DeadlineFields(desc).e)))
    && (DeadlineFields(desc).Fields? ==>
          && Contains(desc, "/by")
          && (ParseIso(Trim(SecondPiece(desc, "/by"))).None? ==> r == Result(m, Crash))
          && (ParseIso(Trim(SecondPiece(desc, "/by"))).Some? ==>
                TaskAdded(m, Fresh(Trim(Before(desc, "/by")), Deadline(ParseIso(Trim(SecondPiece(desc, "/by"))).value)), fault, r)))
    && Commits(m, r, fault)
  }

  /** t is appended, and without a fault the file is rewritten and the addition reported. */
  predicate TaskAdded(m: Machine, t: TaskData, fault: Option<SaveFault>, r: Result)
  {
    && r.m.tasks == m.tasks + [t]
    && (fault.None? ==> r.out == Shown(AddedReply(t, |m.tasks| + 1)) && Synced(r.m))
  }

  /** handleDeadline keeps DeadlineOutcome for every argument. */
  lemma DeadlineSpec(m: Machine, desc: string, fault: Option<SaveFault>)
    ensures DeadlineOutcome(m, desc, fault, HandleDeadline(m, desc, fault))
  {
    DeadlineChecks(desc);
  }

  /** A typed deadline line: handleDeadline on the trimmed text after the keyword. */
  lemma StepDeadline(m: Machine, rest: string, fault: Option<SaveFault>)
    ensures DeadlineOutcome(m, Trim(rest), fault, Step(m, "deadline " + rest, fault))
  {
    RunsDeadline(m, rest, fault);
    DeadlineSpec(m, Trim(rest), fault);
  }

  /** handleDeadline once its checks have produced description d and date text b. */
  lemma AcceptedDeadline(m: Machine, desc: string, d: string, b: string, fault: Option<SaveFault>)
    requires DeadlineFields(desc) == Fields(d, [b])
    ensures var r := HandleDeadline(m, desc, fault);
      && (ParseIso(b).None? ==> r == Result(m, Crash))
      && (ParseIso(b).Some? ==> r.m.tasks == m.tasks + [Fresh(d, Deadline(ParseIso(b).value))])
      && Commits(m, r, fault)
  {
  }

  /** handleEvent once its checks have produced description d, start f and end t. */
  lemma AcceptedEvent(m: Machine, desc: string, d: string, f: string, t: string, fault: Option<SaveFault>)
    requires EventFields(desc) == Fields(d, [f, t])
    ensures var r := HandleEvent(m, desc, fault);
      && r.m.tasks == m.tasks + [Fresh(d, Event(f, t))]
      && Commits(m, r, fault)
  {
  }

  /** The checks accept "d /by b" with description d and date text b. */
  lemma DeadlineFieldsOf(d: string, b: string)
    requires Word(d) && Word(b)
    ensures DeadlineFields(d + " /by " + b) == Fields(d, [b])
  {
    DeadlineParts(d, b);
  }

  /** "d /by b" contains "/by", splits into d and b with their spaces, and those trim to d and b. */
  lemma DeadlineParts(d: string, b: string)
    requires Word(d) && Word(b)
    ensures var desc := d + " /by " + b;
      && Contains(desc, "/by") && Split(desc, "/by") == [d + " ", " " + b]
      && Trim(d + " ") == d && Trim(" " + b) == b
  {
    var desc := d + " /by " + b;
    assert desc == (d + " ") + "/by" + (" " + b);
    NoMarker(" " + b, "/by");
    SplitAtMarker(d + " ", "/by", " " + b);
    SpaceAfter(d);
    SpaceBefore(b);
  }

  /** A word followed by a space trims to the word. */
  lemma SpaceAfter(w: string)
    requires Word(w)
    ensures Trim(w + " ") == w
  {
    assert "" + w + " " == w + " ";
    TrimAround("", w, " ");
  }

  /** A word after a space trims to the word. */
  lemma SpaceBefore(w: string)
    requires Word(w)
    ensures Trim(" " + w) == w
  {
    assert " " + w + "" == " " + w;
    TrimAround(" ", w, "");
  }

  /** handleDeadline on "d /by b" with words d and b. */
  lemma DeadlineWords(m: Machine, d: string, b: string, fault: Option<SaveFault>)
    requires Word(d) && Word(b)
    ensures var r := HandleDeadline(m, d + " /by " + b, fault);
      && (ParseIso(b).None? ==> r == Result(m, Crash))
      && (ParseIso(b).Some? ==> r.m.tasks == m.tasks + [Fresh(d, Deadline(ParseIso(b).value))])
      && Commits(m, r, fault)
  {
    DeadlineFieldsOf(d, b);
    AcceptedDeadline(m, d + " /by " + b, d, b, fault);
  }

  /** handleEvent on "d /from f /to t" with words d, f and t: an event with description d, start f and end t is added and saved. */
  lemma EventWords(m: Machine, d: string, f: string, t: string, fault: Option<SaveFault>)
    requires Word(d) && Word(f) && Word(t)
    ensures var r := HandleEvent(m, d + " /from " + f + " /to " + t, fault);
      && r.m.tasks == m.tasks + [Fresh(d, Event(f, t))]
      && Commits(m, r, fault)
  {
    EventFieldsOf(d, f, t);
    AcceptedEvent(m, d + " /from " + f + " /to " + t, d, f, t, fault);
  }

  /** The text after "/from" holds no "/from" when its only '/' starts "/to". */
  lemma NoFromMarker(f: string, t: string)
    requires Word(f) && Word(t)
    ensures !Contains(" " + f + " /to " + t, "/from")
  {
    var x := " " + f + " /to " + t;
    forall j: nat | j + 5 <= |x|
      ensures !OccursAt(x, "/from", j)
    {
      var w := x[j..j + 5];
      if 1 <= j <= |f| {
        assert w[0] == f[j - 1];
      } else if j >= |f| + 6 {
        assert w[0] == t[j - |f| - 6];
      } else if j == |f| + 2 {
        assert w[1] == 't';
      } else {
        assert w[0] == x[j];
      }
    }
  }

  /**
   * What handleEvent does with any argument desc: a refusal changes nothing;
   * otherwise the description is the trimmed text before the first "/from",
   * and the start and end are the trimmed pieces around the first "/to" of
   * Times(desc); the event is added and saved.
   */
  predicate EventOutcome(m: Machine, desc: string, fault: Option<SaveFault>, r: Result)
  {
    && (EventFields(desc).Refuse? ==> r == Result(m, Failed(EventFields(desc).e)))
    && (EventFields(desc).Fields? ==>
          && Contains(desc, "/from") && Contains(Times(desc), "/to")
          && TaskAdded(m, Fresh(Trim(Before(desc, "/from")),
                                    Event(Trim(Before(Times(desc), "/to")), Trim(SecondPiece(Times(desc), "/to")))),
                           fault, r))
    && Commits(m, r, fault)
  }

  /** handleEvent keeps EventOutcome for every argument. */
  lemma EventSpec(m: Machine, desc: string, fault: Option<SaveFault>)
    ensures EventOutcome(m, desc, fault, HandleEvent(m, desc, fault))
  {
    EventChecks(desc);
  }

  /** A typed event line: handleEvent on the trimmed text after the keyword. */
  lemma StepEvent(m: Machine, rest: string, fault: Option<SaveFault>)
    ensures EventOutcome(m, Trim(rest), fault, Step(m, "event " + rest, fault))
  {
    RunsEvent(m, rest, fault);
    EventSpec(m, Trim(rest), fault);
  }

  /** The checks accept "d /from f /to t" with description d, start f and end t. */
  lemma EventFieldsOf(d: string, f: string, t: string)
    requires Word(d) && Word(f) && Word(t)
    ensures EventFields(d + " /from " + f + " /to " + t) == Fields(d, [f, t])
  {
    EventFromParts(d, f, t);
    EventHasTo(d, f, t);
    SpaceAfter(d);
    EventToParts(f, t);
  }

  /** "d /from f /to t" contains both markers and splits at "/from" into d and the rest. */
  lemma EventFromParts(d: string, f: string, t: string)
    requires Word(d) && Word(f) && Word(t)
    ensures var desc := d + " /from " + f + " /to " + t;
      && Contains(desc, "/from")
      && Split(desc, "/from") == [d + " ", " " + f + " /to " + t]
  {
    var x := " " + f + " /to " + t;
    var desc := d + " /from " + f + " /to " + t;
    assert desc == (d + " ") + "/from" + x;
    NoFromMarker(f, t);
    SplitAtMarker(d + " ", "/from", x);
  }

  /** "d /from f /to t" contains "/to". */
  lemma EventHasTo(d: string, f: string, t: string)
    requires Word(t)
    ensures Contains(d + " /from " + f + " /to " + t, "/to")
  {
    assert d + " /from " + f + " /to " + t == (d + " /from " + f + " ") + "/to" + (" " + t);
    OccursIn(d + " /from " + f + " ", "/to", " " + t);
  }

  /** The rest after "/from", trimmed and split at "/to", gives f and t with their spaces. */
  lemma EventToParts(f: string, t: string)
    requires Word(f) && Word(t)
    ensures var y := f + " /to " + t;
      && Trim(" " + f + " /to " + t) == y
      && Split(y, "/to") == [f + " ", " " + t]
      && Trim(f + " ") == f && Trim(" " + t) == t
  {
    var y := f + " /to " + t;
    WordsTrimmed(f, " /to ", t);
    assert " " + y + "" == " " + f + " /to " + t;
    TrimAround(" ", y, "");
    assert y == (f + " ") + "/to" + (" " + t);
    NoMarker(" " + t, "/to");
    SplitAtMarker(f + " ", "/to", " " + t);
    SpaceAfter(f);
    SpaceBefore(t);
  }

  // ------------------------------------------ what every command keeps

  /** The data file holds exactly the save of the tasks. */
  predicate Synced(m: Machine)
  {
    m.file == Some(SaveText(m.tasks))
  }

  /** Every task comes back from its line of the data file. */
  predicate AllStorable(ts: seq<TaskData>)
  {
    forall i :: 0 <= i < |ts| ==> Storable(ts[i])
  }

  /** Text the data format carries: no '|' and no line terminator. */
  predicate Clean(s: string)
  {
    '|' !in s && NoLineTerminator(s)
  }

  /** Every branch of the switch either changes nothing or saves what it changed. */
  lemma HandleCommits(m: Machine, c: Commands.CommandType, arg: string, fault: Option<SaveFault>)
    requires Commands.HasKeyword(c)
    ensures Commits(m, Handle(m, c, arg, fault), fault)
  {
    match c
    case Todo => TodoSpec(m, arg, fault);
    case Deadline => DeadlineCommits(m, arg, fault);
    case Event => EventCommits(m, arg, fault);
    case Mark => MarkSpec(m, arg, fault);
    case Unmark => UnmarkSpec(m, arg, fault);
    case Delete => DeleteSpec(m, arg, fault);
    case _ =>
  }

  /** handleDeadline changes nothing when it refuses or crashes, and saves what it adds. */
  lemma DeadlineCommits(m: Machine, arg: string, fault: Option<SaveFault>)
    ensures Commits(m, HandleDeadline(m, arg, fault), fault)
  {
  }

  /** handleEvent changes nothing when it refuses, and saves what it adds. */
  lemma EventCommits(m: Machine, arg: string, fault: Option<SaveFault>)
    ensures Commits(m, HandleEvent(m, arg, fault), fault)
  {
  }

  /**
   * run's loop body either leaves the state as it was (errors, uncaught
   * exceptions, list, bye) or saves the new tasks; a failed save shows the
   * save error.
   */
  lemma StepCommits(m: Machine, fullCommand: string, fault: Option<SaveFault>)
    ensures Commits(m, Step(m, fullCommand, fault), fault)
  {
    var c := Commands.Parse(fullCommand);
    if Commands.HasKeyword(c) {
      Commands.ParseKeywordPrefix(fullCommand, c);
      HandleCommits(m, c, Argument(fullCommand, c), fault);
    }
  }

  /** A task's storability does not depend on whether it is done. */
  lemma StorableEitherWay(ts: seq<TaskData>, k: nat, done: bool)
    requires AllStorable(ts) && k < |ts|
    ensures AllStorable(ts[k := ts[k].(isDone := done)])
  {
    var us := ts[k := ts[k].(isDone := done)];
    forall i | 0 <= i < |us|
      ensures Storable(us[i])
    {
      assert Storable(ts[i]);
    }
  }

  /** Removing a task keeps the others storable. */
  lemma StorableWithout(ts: seq<TaskData>, k: nat)
    requires AllStorable(ts) && k < |ts|
    ensures AllStorable(ts[..k] + ts[k + 1..])
  {
    var us := ts[..k] + ts[k + 1..];
    forall i | 0 <= i < |us|
      ensures Storable(us[i])
    {
      if i < k {
        assert us[i] == ts[i];
      } else {
        assert us[i] == ts[i + 1];
      }
    }
  }

  /** Text made of characters of a clean string is clean, and a field when trimmed. */
  lemma CleanWithin(t: string, s: string)
    requires Within(t, s) && Clean(s)
    ensures Clean(t)
    ensures Trimmed(t) ==> FieldOk(t)
  {
  }

  /** A to-do is added only with a non-empty description, so it is storable when that is a field. */
  lemma TodoKeepsStorable(m: Machine, arg: string, fault: Option<SaveFault>)
    requires AllStorable(m.tasks) && FieldOk(arg)
    ensures AllStorable(HandleTodo(m, arg, fault).m.tasks)
  {
  }

  /** A deadline's description is made of the argument's characters. */
  lemma DeadlineKeepsStorable(m: Machine, arg: string, fault: Option<SaveFault>)
    requires AllStorable(m.tasks) && FieldOk(arg)
    ensures AllStorable(HandleDeadline(m, arg, fault).m.tasks)
  {
    var fs := DeadlineFields(arg);
    if fs.Fields? {
      CleanWithin(fs.description, arg);
    }
  }

  /** An event's fields are made of the argument's characters and its end is not empty. */
  lemma EventKeepsStorable(m: Machine, arg: string, fault: Option<SaveFault>)
    requires AllStorable(m.tasks) && FieldOk(arg)
    ensures AllStorable(HandleEvent(m, arg, fault).m.tasks)
  {
    var fs := EventFields(arg);
    if fs.Fields? {
      CleanWithin(fs.description, arg);
      CleanWithin(fs.times[0], arg);
      CleanWithin(fs.times[1], arg);
    }
  }

  /** Marking, unmarking and deleting keep the tasks storable. */
  lemma NumberedKeepsStorable(m: Machine, arg: string, fault: Option<SaveFault>)
    requires AllStorable(m.tasks)
    ensures AllStorable(HandleMark(m, arg, fault).m.tasks)
    ensures AllStorable(HandleUnmark(m, arg, fault).m.tasks)
    ensures AllStorable(HandleDelete(m, arg, fault).m.tasks)
  {
    MarkSpec(m, arg, fault);
    if TaskIndex(|m.tasks|, arg, "mark").Index? {
      StorableEitherWay(m.tasks, TaskIndex(|m.tasks|, arg, "mark").k, true);
    }
    UnmarkSpec(m, arg, fault);
    if TaskIndex(|m.tasks|, arg, "unmark").Index? {
      StorableEitherWay(m.tasks, TaskIndex(|m.tasks|, arg, "unmark").k, false);
    }
    DeleteSpec(m, arg, fault);
    if TaskIndex(|m.tasks|, arg, "delete").Index? {
      StorableWithout(m.tasks, TaskIndex(|m.tasks|, arg, "delete").k);
    }
  }

  /** Every branch whose argument is a trimmed field adds only storable tasks. */
  lemma HandleKeepsStorable(m: Machine, c: Commands.CommandType, arg: string, fault: Option<SaveFault>)
    requires Commands.HasKeyword(c) && AllStorable(m.tasks) && FieldOk(arg)
    ensures AllStorable(Handle(m, c, arg, fault).m.tasks)
  {
    match c
    case Todo => TodoKeepsStorable(m, arg, fault);
    case Deadline => DeadlineKeepsStorable(m, arg, fault);
    case Event => EventKeepsStorable(m, arg, fault);
    case Mark => NumberedKeepsStorable(m, arg, fault);
    case Unmark => NumberedKeepsStorable(m, arg, fault);
    case Delete => NumberedKeepsStorable(m, arg, fault);
    case _ =>
  }

  /** A command line without '|' and on one line keeps every task storable. */
  lemma StepKeepsStorable(m: Machine, fullCommand: string, fault: Option<SaveFault>)
    requires AllStorable(m.tasks) && Clean(fullCommand)
    ensures AllStorable(Step(m, fullCommand, fault).m.tasks)
  {
    var c := Commands.Parse(fullCommand);
    if Commands.HasKeyword(c) {
      Commands.ParseKeywordPrefix(fullCommand, c);
      var tail := fullCommand[|Commands.Keyword(c)|..];
      TrimFacts(tail);
      assert Within(tail, fullCommand);
      CleanWithin(Trim(tail), fullCommand);
      HandleKeepsStorable(m, c, Argument(fullCommand, c), fault);
    }
  }

  // ------------------------------------------------ sessions and restart

  /** Every save of the session succeeds. */
  predicate NoFaults(inputs: seq<Input>)
  {
    forall i :: 0 <= i < |inputs| ==> inputs[i].fault.None?
  }

  /** Every line typed is clean. */
  predicate CleanLines(inputs: seq<Input>)
  {
    forall i :: 0 <= i < |inputs| ==> Clean(inputs[i].line)
  }

  /** When every save succeeds, the file holds the tasks after every command. */
  lemma {:induction false} RunKeepsSynced(m: Machine, inputs: seq<Input>)
    requires Synced(m) && NoFaults(inputs)
    ensures Synced(Run(m, inputs).final)
    decreases |inputs|
  {
    if inputs != [] {
      var r := Step(m, Trim(inputs[0].line), inputs[0].fault);
      StepCommits(m, Trim(inputs[0].line), inputs[0].fault);
      if !Stops(r.out) {
        assert NoFaults(inputs[1..]) by {
          assert forall i :: 0 <= i < |inputs| - 1 ==> inputs[1..][i] == inputs[i + 1];
        }
        RunKeepsSynced(r.m, inputs[1..]);
      }
    }
  }

  /** Clean lines keep every task storable, whatever the saves do. */
  lemma {:induction false} RunKeepsStorable(m: Machine, inputs: seq<Input>)
    requires AllStorable(m.tasks) && CleanLines(inputs)
    ensures AllStorable(Run(m, inputs).final.tasks)
    decreases |inputs|
  {
    if inputs != [] {
      var line := inputs[0].line;
      TrimFacts(line);
      assert Clean(Trim(line)) by {
        CleanWithin(Trim(line), line);
      }
      var r := Step(m, Trim(line), inputs[0].fault);
      StepKeepsStorable(m, Trim(line), inputs[0].fault);
      if !Stops(r.out) {
        assert CleanLines(inputs[1..]) by {
          assert forall i :: 0 <= i < |inputs| - 1 ==> inputs[1..][i] == inputs[i + 1];
        }
        RunKeepsStorable(r.m, inputs[1..]);
      }
    }
  }

  /** Starting over on a file that holds the save of storable tasks gives back the same state. */
  lemma RestartRestores(m: Machine)
    requires Synced(m) && AllStorable(m.tasks)
    ensures Boot(m.file, false) == Some(m)
  {
    RoundTrip(m.tasks);
  }

  /**
   * The persistence promise: after a session of clean lines whose saves all
   * succeed, a new start on the same file has the same tasks.
   */
  lemma SessionSurvivesRestart(m: Machine, inputs: seq<Input>)
    requires Synced(m) && AllStorable(m.tasks)
    requires NoFaults(inputs) && CleanLines(inputs)
    ensures Boot(Run(m, inputs).final.file, false) == Some(Run(m, inputs).final)
  {
    RunKeepsSynced(m, inputs);
    RunKeepsStorable(m, inputs);
    RestartRestores(Run(m, inputs).final);
  }

  /** A first start creates an empty file, which already holds the save of no tasks. */
  lemma FirstStart()
    ensures Boot(None, false) == Some(Machine([], Some("")))
    ensures Synced(Machine([], Some(""))) && AllStorable([])
  {
    assert SaveLines([]) == [];
  }

  /** bye ends the session at once, whatever follows. */
  lemma ByeEnds(m: Machine, fault: Option<SaveFault>, rest: seq<Input>)
    ensures Run(m, [Input("bye", fault)] + rest) == Session(m, [Exit])
  {
    Commands.ParseByeExample();
    assert ([Input("bye", fault)] + rest)[0].line == "bye";
    assert Trim("bye") == "bye" by {
      assert Trimmed("bye");
      TrimOfTrimmed("bye");
    }
    ArgumentOfKeyword(Commands.Bye);
  }

  // ---------------------------------------------- quirks and examples

  /**
   * Lines arrive trimmed, so Parse never answers Empty: the message for an
   * empty command cannot be shown, and a blank line is an unknown command.
   */
  lemma EmptyUnreachable(m: Machine, line: string, fault: Option<SaveFault>)
    ensures Commands.Parse(Trim(line)) != Commands.Empty
    ensures AllTrimmable(line) ==> Step(m, Trim(line), fault) == Result(m, Failed(UnknownCommand))
  {
    var s := Trim(line);
    TrimFacts(line);
    if s != "" {
      SplitLimit2FirstPiece(s, ' ');
      assert [' '] == " ";
      var w := SplitLimit2(s, " ")[0];
      assert w != [];
      assert w[0] == s[0];
      Commands.ParseCommandEmpty(w);
    } else {
      Commands.ParseBlank(s);
    }
  }

  /** A mark whose argument is not a number ends the program: parseInt's exception is not caught. */
  lemma MarkNotANumber(m: Machine, fault: Option<SaveFault>)
    ensures Step(m, "mark abc", fault) == Result(m, Crash)
  {
    assert "mark abc" == "mark " + "abc";
    assert Trim("abc") == "abc" by {
      assert Trimmed("abc");
      TrimOfTrimmed("abc");
    }
    ParseIntNeedsDigit("abc");
    RunsMark(m, "abc", fault);
  }

  /** mark with no number asks for one. */
  lemma MarkWithoutNumber(m: Machine, fault: Option<SaveFault>)
    ensures Step(m, "mark", fault) == Result(m, Failed(NoTaskNumber("mark")))
  {
    assert "mark" == Commands.Keyword(Commands.Mark);
    StepKeywordAlone(m, Commands.Mark, fault);
  }

  /** find is recognised but has no branch: it is an unknown command. */
  lemma FindUnknown(m: Machine, rest: string, fault: Option<SaveFault>)
    ensures Step(m, "find " + rest, fault) == Result(m, Failed(UnknownCommand))
  {
    assert "find " + rest == Commands.Keyword(Commands.Find) + " " + rest;
    StepKeywordLine(m, Commands.Find, rest, fault);
  }

  /** sort is recognised but has no branch: it is an unknown command. */
  lemma SortUnknown(m: Machine, rest: string, fault: Option<SaveFault>)
    ensures Step(m, "sort " + rest, fault) == Result(m, Failed(UnknownCommand))
  {
    assert "sort " + rest == Commands.Keyword(Commands.Sort) + " " + rest;
    StepKeywordLine(m, Commands.Sort, rest, fault);
  }

  /** A deadline on a day the calendar does not have ends the program. */
  lemma ImpossibleDeadline(m: Machine, fault: Option<SaveFault>)
    ensures Step(m, "deadline " + "return book" + " /by " + "2025-02-30", fault) == Result(m, Crash)
  {
    ImpossibleDateRefused();
    assert Word("return book") by {
      assert Trimmed("return book");
    }
    assert Word("2025-02-30") by {
      assert Trimmed("2025-02-30");
    }
    var rest := "return book" + " /by " + "2025-02-30";
    assert "deadline " + "return book" + " /by " + "2025-02-30" == "deadline " + rest;
    assert Step(m, "deadline " + rest, fault) == HandleDeadline(m, rest, fault) by {
      RunsDeadline(m, rest, fault);
      WordsTrimmed("return book", " /by ", "2025-02-30");
      TrimOfTrimmed(rest);
    }
    assert HandleDeadline(m, rest, fault) == Result(m, Crash) by {
      DeadlineWords(m, "return book", "2025-02-30", fault);
    }
  }
}
