/**
 * The task model: robert.task.Task and its subclasses Todo, Deadline and
 * Event. A task object keeps its description and the fields of its class for
 * life; only its done flag changes. The subclass is recorded as a Kind, and
 * TaskData is the value of a task at one moment, on which rendering and the
 * storage codec are defined.
 */
module Tasks {
  import opened Wrappers
  import opened JavaStrings
  import opened Dates

  /** The class a task is an instance of, with that class's own fields. */
  datatype Kind =
    | Plain                              // a bare Task, as the tests construct one
    | Todo
    | Deadline(byDate: ValidDate)
    | Event(from: string, to: string)

  /** A task's description, done flag and class at one moment. */
  datatype TaskData = TaskData(description: string, isDone: bool, kind: Kind)

  /** Task.getStatusIcon: "X" for a task that is done, a single space otherwise. */
  function StatusIcon(isDone: bool): (r: string)
    ensures |r| == 1
    ensures r == "X" <==> isDone
    ensures !isDone ==> r == " "
  {
    if isDone then "X" else " "
  }

  /** The rendering of Task.toString, which every subclass builds on. */
  function BaseRendering(t: TaskData): string
  {
    "[" + StatusIcon(t.isDone) + "] " + t.description
  }

  /** The tag a subclass's toString puts in front of the base rendering. */
  function TypeTag(k: Kind): (tag: string)
    ensures |tag| == if k.Plain? then 0 else 3
  {
    match k
    case Plain => ""
    case Todo => "[T]"
    case Deadline(_) => "[D]"
    case Event(_, _) => "[E]"
  }

  /** What a subclass's toString appends after the base rendering. */
  function Details(k: Kind): string
  {
    match k
    case Plain => ""
    case Todo => ""
    case Deadline(byDate) => " (by: " + FormatDisplay(byDate) + ")"
    case Event(from, to) => " (from: " + from + " to: " + to + ")"
  }

  /** toString as Task, Todo, Deadline and Event define it. */
  function Render(t: TaskData): string
  {
    TypeTag(t.kind) + BaseRendering(t) + Details(t.kind)
  }

  /**
   * The layout of every rendering: the class tag, the status box holding the
   * icon, a space, the description verbatim, then the class's details.
   */
  lemma RenderLayout(t: TaskData)
    ensures var r := Render(t); var n := |TypeTag(t.kind)|;
      && |r| == n + 4 + |t.description| + |Details(t.kind)|
      && r[..n] == TypeTag(t.kind)
      && r[n] == '[' && r[n + 1] == StatusIcon(t.isDone)[0] && r[n + 2] == ']' && r[n + 3] == ' '
      && r[n + 4..n + 4 + |t.description|] == t.description
      && r[n + 4 + |t.description|..] == Details(t.kind)
  {
    var r := Render(t);
    assert r == TypeTag(t.kind) + "[" + StatusIcon(t.isDone) + "] " + t.description + Details(t.kind);
  }

  /** Replacing the one character between a prefix and a suffix. */
  lemma ReplaceBetween(p: string, x: string, y: string, q: string)
    requires |x| == 1 && |y| == 1
    ensures (p + x + q)[|p| := y[0]] == p + y + q
  {
    var a, b := (p + x + q)[|p| := y[0]], p + y + q;
    assert |a| == |b|;
    forall i | 0 <= i < |a|
      ensures a[i] == b[i]
    {
      if i < |p| {
      } else if i > |p| {
        assert a[i] == q[i - |p| - 1] == b[i];
      }
    }
  }

  /**
   * Setting the done flag changes exactly one character of the rendering, the
   * icon inside the status box; everything else reads the same.
   */
  lemma {:induction false} MarkChangesOnlyIcon(t: TaskData, isDone: bool)
    ensures var n := |TypeTag(t.kind)|;
      && |Render(t.(isDone := isDone))| == |Render(t)|
      && Render(t.(isDone := isDone)) == Render(t)[n + 1 := StatusIcon(isDone)[0]]
  {
    var u := t.(isDone := isDone);
    var p := TypeTag(t.kind) + "[";
    var q := "] " + t.description + Details(t.kind);
    assert Render(t) == p + StatusIcon(t.isDone) + q by {
      assert BaseRendering(t) == "[" + StatusIcon(t.isDone) + "] " + t.description;
    }
    assert Render(u) == p + StatusIcon(isDone) + q by {
      assert BaseRendering(u) == "[" + StatusIcon(isDone) + "] " + t.description;
    }
    ReplaceBetween(p, StatusIcon(t.isDone), StatusIcon(isDone), q);
  }

  /** A new task of any class is not done. */
  function Fresh(description: string, kind: Kind): (t: TaskData)
    ensures !t.isDone && t.description == description && t.kind == kind
  {
    TaskData(description, false, kind)
  }

  /**
   * Deadline's constructor: the date string is parsed with LocalDate.parse and
   * None stands for the DateTimeParseException it throws.
   */
  function NewDeadline(description: string, byText: string): (r: Option<TaskData>)
    ensures r.Some? <==> ParseIso(byText).Some?
    ensures r.Some? ==> r.value == Fresh(description, Deadline(ParseIso(byText).value))
  {
    match ParseIso(byText)
    case None => None
    case Some(d) => Some(Fresh(description, Deadline(d)))
  }

  /** The renderings the tests expect of new to-dos. */
  lemma TodoRenderExamples(d: string)
    ensures Render(Fresh(d, Todo)) == "[T][ ] " + d
    ensures Render(Fresh(d, Todo).(isDone := true)) == "[T][X] " + d
    ensures BaseRendering(Fresh("Sample task", Plain)) == "[ ] Sample task"
  {
  }

  /** A new deadline shows its tag, an empty box, its description and its date for display. */
  lemma DeadlineRendering(description: string, date: ValidDate)
    ensures Render(Fresh(description, Deadline(date))) == "[D][ ] " + description + " (by: " + FormatDisplay(date) + ")"
  {
    var t := Fresh(description, Deadline(date));
    assert BaseRendering(t) == "[ ] " + description;
  }

  /** The rendering the tests expect of a deadline. */
  lemma DeadlineRenderExample()
    ensures Render(Fresh("Submit report", Deadline(Date(2024, 12, 31))))
            == "[D][ ] " + "Submit report" + " (by: " + "Dec 31 2024" + ")"
  {
    DisplayExamples();
    DeadlineRendering("Submit report", Date(2024, 12, 31));
  }

  /** A new event shows its tag, an empty box, its description and both of its times. */
  lemma EventRendering(description: string, from: string, to: string)
    ensures Render(Fresh(description, Event(from, to)))
            == "[E][ ] " + description + " (from: " + from + " to: " + to + ")"
  {
    var t := Fresh(description, Event(from, to));
    assert BaseRendering(t) == "[ ] " + description;
  }

  /** The rendering the tests expect of an event. */
  lemma EventRenderExample()
    ensures Render(Fresh("Conference", Event("2025-03-05", "2025-03-07")))
            == "[E][ ] " + "Conference" + " (from: " + "2025-03-05" + " to: " + "2025-03-07" + ")"
  {
    EventRendering("Conference", "2025-03-05", "2025-03-07");
  }

  /** A task object: its description and class are fixed, its done flag is not. */
  class Task {
    const description: string
    const kind: Kind
    var isDone: bool

    /** Task's constructor, reached through the constructor of each subclass. */
    constructor (description: string, kind: Kind)
      ensures this.description == description && this.kind == kind
      ensures !isDone
    {
      this.description := description;
      this.kind := kind;
      isDone := false;
    }

    method MarkAsDone()
      modifies this
      ensures isDone
      ensures Data() == old(Data()).(isDone := true)
    {
      isDone := true;
    }

    method MarkAsNotDone()
      modifies this
      ensures !isDone
      ensures Data() == old(Data()).(isDone := false)
    {
      isDone := false;
    }

    function GetStatusIcon(): string
      reads this
    {
      StatusIcon(isDone)
    }

    function GetDescription(): string
    {
      description
    }

    /** Deadline.getByDate. */
    function GetByDate(): ValidDate
      requires kind.Deadline?
    {
      kind.byDate
    }

    /** Event.getFrom, which the storage code calls getStartTime. */
    function GetFrom(): string
      requires kind.Event?
    {
      kind.from
    }

    /** Event.getTo, which the storage code calls getEndTime. */
    function GetTo(): string
      requires kind.Event?
    {
      kind.to
    }

    /** The task's value now. */
    function Data(): TaskData
      reads this
    {
      TaskData(description, isDone, kind)
    }

    function ToString(): string
      reads this
    {
      Render(Data())
    }
  }
}
