# Robert, a task-list chatbot, in Dafny

This project models the `robert` package of a console chatbot that keeps a list of tasks. The model has four layers:

- **Tasks.** A task is a to-do, a deadline with a calendar date, or an event with free-text start and end. Each task has a description and a done flag that can be changed.
- **The task list.** Tasks are held in order.
- **The data file.** Each task is saved as one line of `|`-separated fields (`T|1|read book`, `D|0|return book|2025-01-10`, `E|0|party|Mon 2pm|4pm`). The file is read back line by line.
- **The command loop.** It classifies each typed line by its first word and runs the handler for that command: `todo`, `deadline`, `event`, `mark`, `unmark`, `delete`, `list` or `bye`. Every change is saved to the file, and the user is shown a reply or an error.

The modules follow the program:

| file | module | models |
|---|---|---|
| `wrappers.dfy` | `Wrappers` | `Option`, for a null result or an exception |
| `strings.dfy` | `JavaStrings` | the `String` and `Integer` operations with Java semantics: `trim`, `contains`, `split` with a limit of 0 and of 2, `toLowerCase`, decimal printing, `Integer.parseInt` |
| `dates.dfy` | `Dates` | the dates a deadline holds; the strict `YYYY-MM-DD` parse of `LocalDate.parse` (ISO 8601:2004, section 4.1.2.2); the two renderings |
| `task.dfy` | `Tasks` | `Task`, `Todo`, `Deadline` and `Event` (see below) |
| `tasklist.dfy` | `TaskLists` | `TaskList`, a class over a sequence of task references |
| `storage.dfy` | `Storage` | `convertTaskToString`, `parseTaskLine`, and the `load` and `save` loops over a file held as its text |
| `commands.dfy` | `Commands` | `CommandType.parseCommand` and `Parser.parse` |
| `interpreter.dfy` | `Interpreter` | the reference semantics of `Robert.run` and its handlers on values: a `Machine` of task values and file text, one `Step` per typed line, `Run` over a session, `Boot` for the constructor |
| `robert.dfy` | `Robert` | the `Robert` object itself: its methods mutate the task objects, the list and the storage, and are proved to agree with `Interpreter` |

In `task.dfy`, the subclass of a task is a `Kind`. `TaskData` is a task's value at one moment. The `Task` class has constant fields for the description and kind and a mutable done flag.

`Robert.Robert.Run` is proved to produce exactly the session that `Interpreter.Run` gives. `Interpreter` in turn proves these properties:
- each command's effect, including all of its error paths;
- a change always reaches the file or the save error is shown;
- when the tasks start storable and no typed line contains `|` or a line terminator, they stay storable (`Interpreter.RunKeepsStorable`);
- a session with those clean lines and no save faults, started from a file that holds the current tasks (all storable), leaves a file from which a restart gives back the same tasks (`Interpreter.SessionSurvivesRestart`). A first start with no file meets these conditions (`Interpreter.FirstStart`). A line such as `todo a|b` does not: the to-do comes back as "a" (`Storage.PipeInDescriptionIsLost`). Nor does a start whose load hit an I/O error, which begins with no tasks over the old file (`Interpreter.Boot`);
- a save that fails part-way through a deadline's date leaves a file that no longer loads (`Storage.CutInsideDateFailsLoad`).

## Model

| member | source | states |
|---|---|---|
| Tasks.StatusIcon | src/main/java/robert/task/Task.java:36-38 | the icon is "X" exactly when the task is done and a single space otherwise |
| Tasks.RenderLayout | src/main/java/robert/task/Task.java:55-57 | every rendering is the class tag, "[", the icon, "] ", the description verbatim, then the class's details |
| Tasks.MarkChangesOnlyIcon | src/main/java/robert/task/Task.java:20-29 | changing the done flag changes exactly one character of the rendering, the icon, and keeps the length |
| Tasks.Fresh | src/main/java/robert/task/Task.java:12-15 | a new task of any class is not done and keeps the given description and class fields |
| Tasks.NewDeadline | src/main/java/robert/task/Deadline.java:21-26 | a deadline is built exactly when the date text parses; it then holds the parsed date and is not done |
| Tasks.TodoRenderExamples | src/main/java/robert/task/Todo.java:24-26 | a new to-do d renders "[T][ ] d" and "[T][X] d" once done; a bare task renders "[ ] Sample task" |
| Tasks.DeadlineRendering | src/main/java/robert/task/Deadline.java:40-43 | a new deadline renders "[D][ ] " + description + " (by: " + the "MMM d yyyy" date + ")" |
| Tasks.DeadlineRenderExample | src/test/java/robert/task/DeadlineTest.java:21-25 | "Submit report" by 2024-12-31 renders "[D][ ] Submit report (by: Dec 31 2024)" |
| Tasks.EventRendering | src/main/java/robert/task/Event.java:40-42 | a new event renders "[E][ ] " + description + " (from: " + from + " to: " + to + ")", from and to verbatim |
| Tasks.EventRenderExample | src/test/java/robert/task/EventTest.java:20-24 | the conference example renders as the test expects |
| Tasks.Task.constructor | src/main/java/robert/task/Task.java:12-15 | the new object has the given description and class and is not done |
| Tasks.Task.MarkAsDone | src/main/java/robert/task/Task.java:20-22 | the task is done and its value is otherwise unchanged, so a second call changes nothing |
| Tasks.Task.MarkAsNotDone | src/main/java/robert/task/Task.java:27-29 | the task is not done and its value is otherwise unchanged |
| Dates.ParseFormatIso | src/main/java/robert/task/Deadline.java:25 | LocalDate.parse reads back every date that LocalDate.toString writes |
| Dates.FormatIso | src/main/java/robert/storage/Storage.java:127 | the saved date is ten characters: four year digits, a dash, two month digits, a dash, two day digits |
| Dates.FormatParseIso | src/main/java/robert/task/Deadline.java:25 | a text the parser accepts is already the canonical rendering of its date |
| Dates.ParseIsoExactly | src/main/java/robert/task/Deadline.java:25 | for a valid date d, a text parses to d if and only if it is d's ISO rendering |
| Dates.LeapDay | src/main/java/robert/task/Deadline.java:25 | February 29 is a valid date exactly in Gregorian leap years |
| Dates.ImpossibleDateRefused | src/test/java/robert/RobertTest.java:47-49 | "2025-02-30" is refused |
| Dates.ParseExample | src/test/java/robert/task/DeadlineTest.java:15-18 | "2025-01-10" is year 2025, month 1, day 10 |
| Dates.DisplayOfParsed | src/main/java/robert/task/Deadline.java:41-42 | the display of a parsed date is the month's abbreviation, the day without a leading zero, and the year of era in four digits; that year part equals the input's year digits exactly when the year is not 0 ("0000-01-01" displays as "Jan 1 0001") |
| Dates.DisplayExamples | src/test/java/robert/storage/StorageTest.java:49 | 2024-12-31 shows as "Dec 31 2024" and 2025-01-01 as "Jan 1 2025" (no zero padding) |
| TaskLists.TaskList.constructor | src/main/java/robert/task/TaskList.java:14-16 | a new list is empty |
| TaskLists.TaskList.FromList | src/main/java/robert/task/TaskList.java:23-25 | the list holds exactly the given tasks, in order |
| TaskLists.TaskList.Add | src/main/java/robert/task/TaskList.java:32-35 | the task is appended and earlier elements are unchanged; the values shown gain the task's value at the end; distinct references stay distinct |
| TaskLists.TaskList.Get | src/main/java/robert/task/TaskList.java:43-45 | a task exactly for an index in [0, size), the one at that index; reads only |
| TaskLists.TaskList.Remove | src/main/java/robert/task/TaskList.java:53-55 | in range: returns the element at the index and keeps the rest in order, values included; out of range: nothing and an unchanged list |
| TaskLists.TaskList.Size | src/main/java/robert/task/TaskList.java:62-64 | the number of tasks held |
| TaskLists.TaskList.GetTasks | src/main/java/robert/task/TaskList.java:71-73 | the tasks held, in order, element i being Get(i) |
| Storage.DoneFlag | src/main/java/robert/storage/Storage.java:121 | the flag field is "1" exactly for a done task, "0" otherwise |
| Storage.ConvertIsJoin | src/main/java/robert/storage/Storage.java:120-134 | a saved line is the task's fields (type letter, flag, description, then the date or the two times) joined with "\|" |
| Storage.DecodeFields | src/main/java/robert/storage/Storage.java:64-98 | a line decodes exactly when it has at least three fields and its trimmed tag is T, or D with a fourth field whose trimmed text parses, or E with a fifth field; it is a bad date exactly for a D line with four fields whose trimmed date does not parse; every other line (unknown tag, short D or E line) is skipped; a decoded deadline holds the date of the trimmed fourth field and a decoded event the trimmed fourth and fifth fields |
| Storage.ParseTaskLine | src/main/java/robert/storage/Storage.java:64-68 | a line without "\|" is skipped; a bad date comes only from a line of at least four fields tagged D |
| Storage.DecodedFlag | src/main/java/robert/storage/Storage.java:70-96 | a decoded task is done exactly when the trimmed flag field is "1"; its description is the trimmed third field |
| Storage.ExtraFieldsIgnored | src/main/java/robert/storage/Storage.java:70-88 | fields after the ones a line's type needs do not change the result |
| Storage.TrailingSeparatorSkipped | src/main/java/robert/storage/Storage.java:65-68 | "T\|0\|" splits into two fields, so the line is skipped |
| Storage.MalformedLineSkipped | src/test/java/robert/storage/StorageTest.java:53-60 | "???\|???\|malformed" is skipped |
| Storage.DecodeEncode | src/main/java/robert/storage/Storage.java:64-98 | decoding the line of a task whose fields hold no "\|", no line break and no outer blanks gives the task back when a field-dropping empty last field does not occur, and skips it otherwise |
| Storage.PipeInDescriptionIsLost | src/main/java/robert/storage/Storage.java:124 | a to-do "a\|b" is saved as four fields and loaded as the to-do "a" |
| Storage.ScannerLinesOfWritten | src/main/java/robert/storage/Storage.java:45-47 | Scanner.nextLine reads back exactly the lines written with "\n" or "\r\n" after each |
| Storage.LoadSave | src/main/java/robert/storage/Storage.java:106-112 | decoding the saved lines of encodable tasks gives their storable ones, in order |
| Storage.RoundTrip | src/main/java/robert/storage/Storage.java:106-112 | loading the text save writes gives the storable tasks in order, so every task when all are storable |
| Storage.ReloadAfterSave | src/main/java/robert/storage/Storage.java:45-55 | whatever file loads, saving its tasks and loading again gives the tasks that survive a save, and a second round changes nothing |
| Storage.LoadedAreEncodable | src/main/java/robert/storage/Storage.java:45-55 | every task load produces can be encoded |
| Storage.LoadFailsExactly | src/main/java/robert/storage/Storage.java:82 | load fails exactly when some line is a deadline line whose date does not parse |
| Storage.LoadOneLine | src/main/java/robert/storage/Storage.java:45-52 | a file of one line loads what that line decodes to |
| Storage.EmptyFileLoadsEmpty | src/test/java/robert/storage/StorageTest.java:26-33 | an empty file loads no task |
| Storage.SaveAndLoadExample | src/test/java/robert/storage/StorageTest.java:36-50 | the test's to-do and deadline are loaded back unchanged |
| Storage.MakeTask | src/main/java/robert/storage/Storage.java:73-97 | a new task object whose value is the decoded one |
| Storage.AddDecoded | src/main/java/robert/storage/Storage.java:48-51 | a decoded line appends a new task, a skipped line nothing, and a bad date ends the load |
| Storage.ReadTasks | src/main/java/robert/storage/Storage.java:45-55 | the loop gives new, distinct task objects whose values are exactly what the lines decode to, or ends the load on a bad date |
| Storage.Storage.constructor | src/main/java/robert/storage/Storage.java:25-27 | the object keeps the path over the given file content |
| Storage.Storage.Load | src/main/java/robert/storage/Storage.java:35-56 | the load's result in each case: I/O failure, a missing file (created empty, no task), a bad date, or the decoded tasks of the file's lines |
| Storage.Storage.Save | src/main/java/robert/storage/Storage.java:106-112 | a save without fault leaves the text of every task's line; a failed open leaves the old file; a write that fails after k characters leaves the first k characters of that text, possibly cut inside a line |
| Storage.Storage.WriteLines | src/main/java/robert/storage/Storage.java:107-111 | the write loop empties the file and hands it each line followed by the separator; the file ends as the whole text, the old file after a failed open, or the part reached by a failed write |
| Storage.Reached | src/main/java/robert/storage/Storage.java:107-111 | what a failed write leaves is a prefix of the text, k characters long or the whole text |
| Storage.SaveText | src/main/java/robert/storage/Storage.java:106-112 | no task writes nothing; otherwise the text ends with the line separator |
| Storage.SaveOfOne | src/main/java/robert/storage/Storage.java:108-110 | the save of one task is its line followed by the separator |
| Storage.CutDeadlineLine | src/main/java/robert/storage/Storage.java:78-83 | a deadline line cut inside its date is a single line that decodes as a bad date |
| Storage.LoadUnterminated | src/main/java/robert/storage/Storage.java:45-52 | a file whose text holds no line terminator loads as its one line |
| Storage.CutInsideDateFailsLoad | src/main/java/robert/storage/Storage.java:106-112 | a save of a deadline that fails after reaching only part of its date leaves a file whose load fails |
| JavaStrings.SplitOfJoin | src/main/java/robert/storage/Storage.java:65 | split by a character gives back the pieces that were joined with it, minus trailing empty ones |
| JavaStrings.ParseIntOfNatToString | src/main/java/robert/Robert.java:195 | Integer.parseInt reads back every int that the list numbering prints |
| Commands.KindOfExactly | src/main/java/robert/command/CommandType.java:30-53 | each kind with a keyword is chosen for exactly its keyword |
| Commands.ParseCommand | src/main/java/robert/command/CommandType.java:26-54 | EMPTY exactly for blank input; a keyword kind only when the input lower-cases to its keyword |
| Commands.ParseCommandEmpty | src/main/java/robert/command/CommandType.java:27-29 | parseCommand gives EMPTY exactly for blank input |
| Commands.ParseCommandKeyword | src/main/java/robert/command/CommandType.java:30-50 | each of the ten kinds is chosen exactly by the inputs that lower-case to its keyword |
| Commands.ParseCommandUnknown | src/main/java/robert/command/CommandType.java:51-52 | UNKNOWN exactly for non-blank input that lower-cases to no keyword |
| Commands.ParseCommandIgnoresCase | src/main/java/robert/command/CommandType.java:30 | an input and its lower case are classified the same |
| Commands.ParseCommandExamples | src/main/java/robert/command/CommandType.java:26-54 | "LIST" and "ToDo" are keywords; "list " with a space is UNKNOWN; "   " is EMPTY |
| Commands.ParseBlank | src/main/java/robert/parser/Parser.java:16-17 | blank input is UNKNOWN for parse, though parseCommand alone would say EMPTY |
| Commands.Parse | src/main/java/robert/parser/Parser.java:15-21 | UNKNOWN for blank input; EMPTY exactly when the line is not blank but its text before the first space is; a keyword kind only when that first word lower-cases to its keyword |
| Commands.ParseKeywordAlone | src/main/java/robert/parser/Parser.java:19-20 | a keyword alone is its kind |
| Commands.ParseFirstWord | src/main/java/robert/parser/Parser.java:19-20 | only the text before the first space decides |
| Commands.ParseOneWord | src/main/java/robert/parser/Parser.java:19-20 | a line without a space is classified whole |
| Commands.ParseLeadingSpace | src/main/java/robert/parser/Parser.java:19-20 | a non-blank line starting with a space is EMPTY |
| Commands.ParseKeywordPrefix | src/main/java/robert/Robert.java:62-79 | a line parsed as a keyword kind starts with that keyword in some casing, then the end or a space, so the handler's substring is in range |
| Commands.ParseKeywordLine | src/main/java/robert/parser/Parser.java:19-20 | a keyword, a space and any text is that keyword's kind |
| Commands.ParseEmptyExample | src/test/java/robert/parser/ParserTest.java:18-22 | "" is UNKNOWN |
| Commands.ParseTodoExample | src/test/java/robert/parser/ParserTest.java:27-31 | "todo read book" is TODO |
| Commands.ParseByeExample | src/test/java/robert/parser/ParserTest.java:36-40 | "bye" is BYE |
| Commands.ParseRandomExample | src/test/java/robert/parser/ParserTest.java:45-49 | "randomstuff" is UNKNOWN, a value |
| Interpreter.Persist | src/main/java/robert/Robert.java:104-109 | the change is kept in memory either way; a save without fault writes every task and shows the reply; a failed open keeps the old file, a failed write leaves a prefix of the save text, and both show the save error |
| Interpreter.TodoSpec | src/main/java/robert/Robert.java:100-110 | an empty description is refused with no change; otherwise one new to-do is appended and the new size is reported; the change is committed |
| Interpreter.StepTodo | src/main/java/robert/Robert.java:62-63 | the line "todo " + rest does the same with the trimmed rest |
| Interpreter.DeadlineFields | src/main/java/robert/Robert.java:119-136 | refused with the "/by" error exactly when "/by" is absent; accepted fields are one non-empty trimmed description and one date text, made of the argument's characters |
| Interpreter.DeadlineChecks | src/main/java/robert/Robert.java:120-136 | one iff per outcome: no "/by"; incomplete exactly when nothing but further "/by"s follows the first one; no description exactly when the text before the first "/by" is blank; no time exactly when the text after it up to the next "/by" is blank; otherwise those two texts, trimmed |
| JavaStrings.SplitTwoPieces | src/main/java/robert/Robert.java:123-129 | split yields at least two pieces exactly when the delimiter occurs and something other than further delimiters follows its first occurrence; the first two pieces are the text before it and the text after it up to the next |
| JavaStrings.EmptyPieces | src/main/java/robert/Robert.java:123-124 | every piece between delimiters is empty exactly when the text is nothing but copies of the delimiter |
| Interpreter.DeadlineSpec | src/main/java/robert/Robert.java:119-143 | for every argument: a refusal changes nothing; accepted fields whose date text does not parse crash with no change; otherwise a new deadline with the trimmed text before "/by" and the parsed date is appended, saved and reported with the new size |
| Interpreter.StepDeadline | src/main/java/robert/Robert.java:65-66 | the same for every line "deadline " + rest, on the trimmed rest |
| Interpreter.AcceptedDeadline | src/main/java/robert/Robert.java:137-140 | once the checks give description d and date text b: a crash with no change if b does not parse, else the deadline d for that date appended and committed |
| Interpreter.DeadlineWords | src/main/java/robert/Robert.java:119-143 | "d /by b" for words d and b gives description d and date text b |
| Interpreter.ImpossibleDeadline | src/main/java/robert/Robert.java:137 | "deadline return book /by 2025-02-30" crashes and adds nothing |
| Interpreter.EventFields | src/main/java/robert/Robert.java:152-175 | refused with the marker error exactly when "/from" or "/to" is absent; accepted fields are a non-empty trimmed description, start and end, made of the argument's characters |
| Interpreter.EventChecks | src/main/java/robert/Robert.java:153-175 | one iff per outcome: a marker missing; no "/from" portion exactly when nothing but further "/from"s follows the first one; no "/to" portion exactly when the trimmed text after "/from" (up to the next) does not split in two at "/to"; no description exactly when the text before "/from" is blank; no times exactly when the text before or after the first "/to" (up to the next) is blank; otherwise those three texts, trimmed |
| Interpreter.EventSpec | src/main/java/robert/Robert.java:152-182 | for every argument: a refusal changes nothing; otherwise a new event with the trimmed description, start and end of EventChecks is appended, saved and reported with the new size |
| Interpreter.StepEvent | src/main/java/robert/Robert.java:68-69 | the same for every line "event " + rest, on the trimmed rest |
| Interpreter.AcceptedEvent | src/main/java/robert/Robert.java:176-178 | once the checks give description d, start f and end t, the event is appended and committed |
| Interpreter.EventWords | src/main/java/robert/Robert.java:152-182 | "d /from f /to t" for words d, f and t gives description d, start f and end t |
| Interpreter.TaskIndex | src/main/java/robert/Robert.java:192-198 | an index exactly for a number in [1, size]; the "please specify" refusal naming the verb exactly for an empty argument; the out-of-range refusal exactly for a number outside [1, size]; a crash for anything parseInt refuses |
| Interpreter.MarkSpec | src/main/java/robert/Robert.java:191-203 | in range only that task becomes done, the rest and the order untouched, and without a fault the marked task is shown and the file is in sync; a refusal changes nothing; a non-number crashes with no change |
| Interpreter.StepMark | src/main/java/robert/Robert.java:71-72 | "mark n": task n-1 and no other becomes done; out of range changes nothing |
| Interpreter.UnmarkSpec | src/main/java/robert/Robert.java:212-224 | in range only that task becomes not done, and without a fault the unmarked task is shown and the file is in sync; a refusal changes nothing; a non-number crashes with no change |
| Interpreter.StepUnmark | src/main/java/robert/Robert.java:74-75 | "unmark n": task n-1 and no other becomes not done; out of range changes nothing |
| Interpreter.DeleteSpec | src/main/java/robert/Robert.java:233-246 | in range exactly that task is removed, the rest kept in order, and without a fault it is reported with the new size and the file is in sync; a refusal changes nothing; a non-number crashes with no change |
| Interpreter.StepDelete | src/main/java/robert/Robert.java:77-78 | "delete n" removes task n-1 and reports it; out of range changes nothing |
| Interpreter.DeleteNumber | src/main/java/robert/Robert.java:233-246 | handleDelete on a printed number n removes task n-1 or refuses an out-of-range n |
| Interpreter.MarkThenUnmark | src/main/java/robert/Robert.java:199-220 | mark then unmark gives the tasks back exactly when the task was not done before |
| Interpreter.MarkNotANumber | src/main/java/robert/Robert.java:195 | "mark abc" is the uncaught NumberFormatException, with no change |
| Interpreter.MarkWithoutNumber | src/main/java/robert/Robert.java:192-194 | "mark" alone asks which task, with no change |
| Interpreter.ListReply | src/main/java/robert/Robert.java:57-60 | a heading, then line i+1 is " " + (i+1) + "." + task i's rendering |
| Interpreter.StepList | src/main/java/robert/Robert.java:56-61 | "list" shows the list and changes nothing |
| Interpreter.StepKeywordLine | src/main/java/robert/Robert.java:62-79 | a keyword line runs that keyword's handler on the trimmed rest |
| Interpreter.ArgumentOfKeywordLine | src/main/java/robert/Robert.java:63 | the handler's argument is the trimmed text after the keyword and its space |
| Interpreter.EmptyUnreachable | src/main/java/robert/Robert.java:80-81 | a trimmed line never parses as EMPTY; a blank line is the unknown-command error |
| Interpreter.FindUnknown | src/main/java/robert/Robert.java:82-83 | "find ..." has no handler: the unknown-command error, no change |
| Interpreter.SortUnknown | src/main/java/robert/Robert.java:82-83 | "sort ..." has no handler: the unknown-command error, no change |
| Interpreter.ByeEnds | src/main/java/robert/Robert.java:51-55 | "bye" ends the session at once with no change |
| Interpreter.Run | src/main/java/robert/Robert.java:42-91 | only the last outcome may end the loop, and it does unless the input ran out |
| Interpreter.Continue | src/main/java/robert/Robert.java:45-90 | the first outcome is the command's own, and the loop ends after bye or a crash |
| Interpreter.Boot | src/main/java/robert/Robert.java:28-37 | the constructor fails exactly when there is no I/O error, the file exists and its load fails on a deadline with a bad date |
| Interpreter.FirstStart | src/main/java/robert/storage/Storage.java:39-43 | with no file, the program starts empty and creates an empty file |
| Interpreter.HandleCommits | src/main/java/robert/Robert.java:85-89 | after any handler, a changed state was saved whole or the save error shown; bye, a crash and caught errors change nothing |
| Interpreter.StepCommits | src/main/java/robert/Robert.java:85-89 | the same for any typed line |
| Interpreter.StepKeepsStorable | src/main/java/robert/Robert.java:46-84 | a line without '\|' or line breaks keeps every task storable |
| Interpreter.RunKeepsStorable | src/main/java/robert/Robert.java:42-91 | a session of such lines keeps every task storable |
| Interpreter.RunKeepsSynced | src/main/java/robert/Robert.java:42-91 | without save faults, the file always holds exactly the saved tasks after a session |
| Interpreter.RestartRestores | src/main/java/robert/Robert.java:28-37 | a synced state of storable tasks is what a restart loads |
| Interpreter.SessionSurvivesRestart | src/main/java/robert/Robert.java:28-37 | after a session without faults on clean lines, restarting gives back the final state |
| Robert.Robert.Create | src/main/java/robert/Robert.java:28-37 | builds the object exactly when Boot does, with fresh parts whose state is Boot's |
| Robert.Robert.SaveAndReply | src/main/java/robert/Robert.java:106-109 | the save and reply give the state and outcome of Persist |
| Robert.Robert.AddAndSave | src/main/java/robert/Robert.java:104-109 | the task is appended, then the save and reply are those of Persist |
| Robert.Robert.HandleTodo | src/main/java/robert/Robert.java:100-110 | ends in the state and outcome of Interpreter.HandleTodo, adding only new objects |
| Robert.Robert.HandleDeadline | src/main/java/robert/Robert.java:119-143 | ends in the state and outcome of Interpreter.HandleDeadline |
| Robert.Robert.HandleEvent | src/main/java/robert/Robert.java:152-182 | ends in the state and outcome of Interpreter.HandleEvent |
| Robert.Robert.HandleMark | src/main/java/robert/Robert.java:191-203 | ends in the state and outcome of Interpreter.HandleMark; other task objects are untouched |
| Robert.Robert.HandleUnmark | src/main/java/robert/Robert.java:212-224 | ends in the state and outcome of Interpreter.HandleUnmark |
| Robert.Robert.HandleDelete | src/main/java/robert/Robert.java:233-246 | ends in the state and outcome of Interpreter.HandleDelete |
| Robert.Robert.RemoveAndSave | src/main/java/robert/Robert.java:241-245 | removes task k from the list, saves, and reports the removed task with the new size |
| Robert.Robert.ListLines | src/main/java/robert/Robert.java:57-60 | the lines printed are exactly ListReply of the current task values |
| Robert.Robert.HandleAdd | src/main/java/robert/Robert.java:62-70 | the todo, deadline and event cases of run's switch agree with Interpreter.Handle |
| Robert.Robert.HandleNumbered | src/main/java/robert/Robert.java:71-79 | the mark, unmark and delete cases agree with Interpreter.Handle |
| Robert.Robert.Handle | src/main/java/robert/Robert.java:50-84 | every keyword's case of run's switch agrees with Interpreter.Handle |
| Robert.Robert.Step | src/main/java/robert/Robert.java:49-89 | one pass of the loop agrees with Interpreter.Step |
| Robert.Robert.Run | src/main/java/robert/Robert.java:42-91 | run gives exactly the final state and outcomes of Interpreter.Run |

Functions that only compute carry no contract of their own. These lemmas characterise them:
- `Storage.ConvertTaskToString` is characterised by `Storage.ConvertIsJoin` and `Storage.DecodeEncode`.
- `Storage.LoadText` is characterised by `Storage.RoundTrip`, `Storage.LoadFailsExactly` and `Storage.ReloadAfterSave`.
- `Dates.ParseIso` is characterised by `Dates.ParseIsoExactly` and `Dates.FormatParseIso`.
- `Dates.FormatDisplay` is characterised by `Dates.DisplayOfParsed`.
- `Tasks.Render` and `Tasks.Task.ToString` are characterised by `Tasks.RenderLayout` and the rendering lemmas.
- `Interpreter.HandleTodo` through `Interpreter.HandleDelete` are characterised by the matching `Spec` lemmas.
- `Interpreter.Handle` and `Interpreter.Step` are characterised by `Interpreter.HandleCommits`, `Interpreter.StepCommits` and the `Step` lemmas.

The `Task` getters each return one field.

## Left out

- Console and GUI output (`Ui`, the JavaFX classes) are left out. `showLine`, the welcome and the loading-error message are not produced. The model only records which lines a command prints.
- Reading a line (`Ui.readCommand`) is modelled as taking the next `Input` and trimming its line. Each `Input` also carries the save fault for that command. End of input, where `nextLine` throws `NoSuchElementException`, simply ends the session.
- File-system effects are parameters:
  - The data file is an `Option<string>`, where `None` means the file does not exist.
  - An `IOException` of `load` is a boolean.
  - An `IOException` of `save` is a `SaveFault`: either opening the file fails and the old file stays, or a write fails after some number of characters have reached the file. The model does not fix where `FileWriter`'s buffer boundaries fall, so any number of characters may stand for the part that reached the file.
  - The path is kept but never interpreted.
  - A missing file whose name has no parent directory makes `f.getParentFile().mkdirs()` throw `NullPointerException` (Storage.java:40). This is not modelled: the model treats every missing file as created.
- `System.lineSeparator()` is fixed to `"\n"`. Reading accepts every line terminator `Scanner` recognises.
- `save` computes its lines before writing them rather than one by one. Computing a line has no effect, so the file content is the same.
- `String.toLowerCase` is modelled as ASCII letters plus KELVIN SIGN to `k`. The other Unicode mappings and the Turkish locale are left out; they cannot produce one of the ASCII keywords. `trim` and `parseInt` follow Java exactly, except that `parseInt` accepts only ASCII digits (Java also accepts other Unicode digits).
- `LocalDate` is modelled only for years 0 to 9999. The parser accepts exactly four year digits, which is what `LocalDate.parse` accepts without a sign. English month names are assumed.
- The aliasing between `TaskList`'s constructor argument, `getTasks` and the caller's `ArrayList` is not modelled beyond returning the same sequence.
- Storage.java:130 calls `getStartTime()`/`getEndTime()`, but `Event` defines `getFrom()`/`getTo()`. Both pairs are read as the event's two fields.
- `find` and `sort` have kinds in `CommandType` but no case in `run`. They fall through to the default error, and no search or ordering is modelled.
- The model's `Step` computes the trimmed text after the keyword for every keyword kind, including `bye`, `list`, `find` and `sort`. Java's `run` computes it only for the six handlers. That text is always in range (`Commands.ParseKeywordPrefix`) and never used, so no outcome changes.
- The Robert handler methods compute the reply before calling `save`, not after. `save` changes no task, so the reply is the same.
- Robert.Robert.Create is a static method taking the file content and the I/O fault, not a constructor. A load that ends in `DateTimeParseException` is `None`, standing for the exception that escapes the constructor.
- Interpreter.StepMark is stated for numbers up to 2^31-1. A larger number makes `Integer.parseInt` throw, which `TaskIndex` maps to a crash; `Interpreter.MarkNotANumber` shows the same crash for a non-number.
- Interpreter.StepUnmark is stated for numbers up to 2^31-1, for the same reason as StepMark.
- Interpreter.StepDelete is stated for numbers up to 2^31-1, for the same reason as StepMark.
- Only what distinguishes outcomes is modelled for messages. The exact texts are in `Interpreter.Message`, but no property is proved about their wording.
- The default-package copies of the classes (`src/main/java/*.java`) are an earlier version and are not part of this model.

## Behaviour worth knowing

These are consequences of the code as written; the model follows it in each case.

- `Parser.parse` returns UNKNOWN, not EMPTY, for blank input (`Commands.ParseBlank`). Since `readCommand` trims every line, the EMPTY case of `run` is never reached (`Interpreter.EmptyUnreachable`).
- The Javadoc of `handleMark` (src/main/java/robert/Robert.java:189) says only that a `RobertException` is thrown for an invalid task number. For `mark abc`, `Integer.parseInt` throws `NumberFormatException` instead, and nothing in `run` catches it, so the program ends (`Interpreter.MarkNotANumber`). An impossible deadline date likewise ends the program (`Interpreter.ImpossibleDeadline`) instead of printing an error.
- A `mark` followed by an `unmark` restores a task only if it was not done before (`Interpreter.MarkThenUnmark`).
- A bad date in a deadline line of the data file raises a `DateTimeParseException`, not an `IOException`. The constructor's fallback to an empty list (src/main/java/robert/Robert.java:33) does not catch it, so the exception propagates (`Interpreter.Boot`).
- A `|` in a description splits that field when the file is read back (`Storage.PipeInDescriptionIsLost`).
- A blank last field makes `split` drop it, so such a task does not survive a save and reload (`Storage.TrailingSeparatorSkipped`, `Storage.RoundTrip`).
