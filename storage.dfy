/**
 * robert.storage.Storage: the data file. Each task is one line of fields
 * separated by '|' ("T|1|read book", "D|0|return book|2025-01-10",
 * "E|0|party|Mon 2pm|4pm"); save writes every line followed by the line
 * separator and load reads the file back line by line, skipping lines it does
 * not understand. The content of the file is a parameter of the model.
 */
module Storage {
  import opened Wrappers
  import opened JavaStrings
  import opened Dates
  import opened Tasks
  import opened TaskLists

  // ------------------------------------------------------------ one line

  /** The done flag of a saved line: "1" when the status icon is "X", else "0". */
  function DoneFlag(t: TaskData): (f: string)
    ensures f == "1" <==> t.isDone
    ensures f == "1" || f == "0"
  {
    if StatusIcon(t.isDone) == "X" then "1" else "0"
  }

  /** convertTaskToString: a task's fields joined by '|'; a bare Task gives "". */
  function ConvertTaskToString(t: TaskData): string
  {
    match t.kind
    case Todo => "T|" + DoneFlag(t) + "|" + t.description
    case Deadline(byDate) => "D|" + DoneFlag(t) + "|" + t.description + "|" + FormatIso(byDate)
    case Event(from, to) => "E|" + DoneFlag(t) + "|" + t.description + "|" + from + "|" + to
    case Plain => ""
  }

  /** The fields of a saved line, in the order convertTaskToString writes them. */
  function Fields(t: TaskData): (fs: seq<string>)
    ensures t.kind.Plain? <==> fs == []
  {
    match t.kind
    case Todo => ["T", DoneFlag(t), t.description]
    case Deadline(byDate) => ["D", DoneFlag(t), t.description, FormatIso(byDate)]
    case Event(from, to) => ["E", DoneFlag(t), t.description, from, to]
    case Plain => []
  }

  /** What parseTaskLine makes of one line. */
  datatype LineResult =
    | Decoded(task: TaskData)
    | Skipped      // parseTaskLine returns null and load goes on
    | BadDate      // Deadline's constructor throws DateTimeParseException

  /**
   * The decision parseTaskLine takes on the fields of a line: at least three
   * fields and a type of T, D or E (after trimming) with enough fields for
   * that type; every field is trimmed, and the task is done exactly when the
   * trimmed flag is "1".
   */
  function DecodeFields(parts: seq<string>): (r: LineResult)
    ensures |parts| < 3 ==> r.Skipped?
    ensures r.Decoded? <==>
              |parts| >= 3 &&
              (|| Trim(parts[0]) == "T"
               || (Trim(parts[0]) == "D" && |parts| >= 4 && ParseIso(Trim(parts[3])).Some?)
               || (Trim(parts[0]) == "E" && |parts| >= 5))
    ensures r.BadDate? <==> |parts| >= 4 && Trim(parts[0]) == "D" && ParseIso(Trim(parts[3])).None?
    ensures r.Decoded? ==> r.task.kind != Plain
    ensures r.Decoded? && r.task.kind.Todo? ==> Trim(parts[0]) == "T"
    ensures r.Decoded? && r.task.kind.Deadline? ==>
              Trim(parts[0]) == "D" && ParseIso(Trim(parts[3])) == Some(r.task.kind.byDate)
    ensures r.Decoded? && r.task.kind.Event? ==>
              Trim(parts[0]) == "E" && r.task.kind == Event(Trim(parts[3]), Trim(parts[4]))
  {
    if |parts| < 3 then Skipped
    else
      var kind := Trim(parts[0]);
      var isDone := Trim(parts[1]) == "1";
      if kind == "T" then
        Decoded(TaskData(Trim(parts[2]), isDone, Todo))
      else if kind == "D" then
        if |parts| < 4 then Skipped
        else
          match NewDeadline(Trim(parts[2]), Trim(parts[3]))
          case None => BadDate
          case Some(t) => Decoded(t.(isDone := isDone))
      else if kind == "E" then
        if |parts| < 5 then Skipped
        else Decoded(TaskData(Trim(parts[2]), isDone, Event(Trim(parts[3]), Trim(parts[4]))))
      else Skipped
  }

  /** parseTaskLine: the line split on '|', then decoded. */
  function ParseTaskLine(line: string): (r: LineResult)
    ensures !Contains(line, "|") ==> r.Skipped?
    ensures r.BadDate? ==> Contains(line, "|") && |Split(line, "|")| >= 4 && Trim(Split(line, "|")[0]) == "D"
  {
    DecodeFields(Split(line, "|"))
  }

  /**
   * A decoded task is done exactly when its trimmed flag field is "1", any
   * other flag meaning not done, and its description is the trimmed third field.
   */
  lemma DecodedFlag(parts: seq<string>)
    requires DecodeFields(parts).Decoded?
    ensures |parts| >= 3
    ensures DecodeFields(parts).task.isDone <==> Trim(parts[1]) == "1"
    ensures DecodeFields(parts).task.description == Trim(parts[2])
  {
    if Trim(parts[0]) == "D" {
      assert NewDeadline(Trim(parts[2]), Trim(parts[3])).Some?;
    }
  }

  /** Fields after the ones a line's type needs are ignored. */
  lemma ExtraFieldsIgnored(parts: seq<string>, extra: seq<string>)
    requires |parts| >= 3
    requires Trim(parts[0]) == "D" ==> |parts| >= 4
    requires Trim(parts[0]) == "E" ==> |parts| >= 5
    ensures DecodeFields(parts + extra) == DecodeFields(parts)
  {
    var all := parts + extra;
    assert all[0] == parts[0] && all[1] == parts[1] && all[2] == parts[2];
    if |parts| >= 4 {
      assert all[3] == parts[3];
    }
    if |parts| >= 5 {
      assert all[4] == parts[4];
    }
  }

  /** A trailing separator leaves no third field: "T|0|" splits into two pieces and is skipped. */
  lemma TrailingSeparatorSkipped()
    ensures ParseTaskLine("T|0|") == Skipped
  {
    var fs := ["T", "0", ""];
    JoinThree("T", "0", "", "|");
    assert Join(fs, "|") == "T|0|";
    SplitOfJoin(fs, '|');
    assert DropTrailingEmpty(fs) == ["T", "0"] by {
      assert fs[..2] == ["T", "0"];
    }
  }

  // ------------------------------------------------------ which tasks survive

  /** The characters at which Scanner.nextLine ends a line. */
  predicate IsLineTerminator(c: char)
  {
    c == '\n' || c == '\r' || c == '\U{0085}' || c == '\U{2028}' || c == '\U{2029}'
  }

  predicate NoLineTerminator(s: string)
  {
    forall c :: c in s ==> !IsLineTerminator(c)
  }

  /** A field the line format carries unchanged: trimmed, without '|' and on one line. */
  predicate FieldOk(s: string)
  {
    Trimmed(s) && '|' !in s && NoLineTerminator(s)
  }

  /** Every text field of the task is one the format carries unchanged. */
  predicate Encodable(t: TaskData)
  {
    FieldOk(t.description) && (t.kind.Event? ==> FieldOk(t.kind.from) && FieldOk(t.kind.to))
  }

  /**
   * An encodable task that also comes back from its line: not a bare Task,
   * and the last field not empty (split drops trailing empty fields, so
   * "T|0|" has two fields and is skipped).
   */
  predicate Storable(t: TaskData)
  {
    && Encodable(t)
    && match t.kind
       case Plain => false
       case Todo => t.description != ""
       case Deadline(_) => true
       case Event(_, to) => to != ""
  }

  /** The ISO rendering of a date is made of digits and dashes. */
  lemma IsoChars(d: ValidDate)
    ensures forall i :: 0 <= i < |FormatIso(d)| ==> IsDigit(FormatIso(d)[i]) || FormatIso(d)[i] == '-'
    ensures IsDigit(FormatIso(d)[0]) && IsDigit(FormatIso(d)[9])
  {
    var s := FormatIso(d);
    var y, m, dd := Fixed(d.year, 4), Fixed(d.month, 2), Fixed(d.day, 2);
    assert s == y + "-" + m + "-" + dd;
    assert s[0] == y[0] && s[9] == dd[1];
  }

  /** A text of digits and dashes is a field the format carries. */
  lemma DigitsAndDashesFieldOk(s: string)
    requires s != [] && IsDigit(s[0]) && IsDigit(s[|s| - 1])
    requires forall i :: 0 <= i < |s| ==> IsDigit(s[i]) || s[i] == '-'
    ensures FieldOk(s)
  {
  }

  /** The ISO rendering of a date is a field the format carries. */
  lemma IsoFieldOk(d: ValidDate)
    ensures FieldOk(FormatIso(d)) && FormatIso(d) != []
  {
    IsoChars(d);
    DigitsAndDashesFieldOk(FormatIso(d));
  }

  /** convertTaskToString joins the fields of the task with '|'. */
  lemma ConvertIsJoin(t: TaskData)
    ensures ConvertTaskToString(t) == Join(Fields(t), "|")
  {
    match t.kind
    case Plain =>
    case Todo => TodoIsJoin(t);
    case Deadline(_) => DeadlineIsJoin(t);
    case Event(_, _) => EventIsJoin(t);
  }

  lemma TodoIsJoin(t: TaskData)
    requires t.kind.Todo?
    ensures ConvertTaskToString(t) == Join(Fields(t), "|")
  {
    JoinThree("T", DoneFlag(t), t.description, "|");
  }

  lemma DeadlineIsJoin(t: TaskData)
    requires t.kind.Deadline?
    ensures ConvertTaskToString(t) == Join(Fields(t), "|")
  {
    JoinFour("D", DoneFlag(t), t.description, FormatIso(t.kind.byDate), "|");
  }

  lemma EventIsJoin(t: TaskData)
    requires t.kind.Event?
    ensures ConvertTaskToString(t) == Join(Fields(t), "|")
  {
    JoinFive("E", DoneFlag(t), t.description, t.kind.from, t.kind.to, "|");
  }

  /** No field of an encodable task holds '|'. */
  lemma FieldsFree(t: TaskData)
    requires Encodable(t)
    ensures forall k :: 0 <= k < |Fields(t)| ==> '|' !in Fields(t)[k]
  {
    if t.kind.Deadline? {
      IsoFieldOk(t.kind.byDate);
    }
  }

  /** The fields of an encodable task decode to the task when it is storable. */
  lemma DecodeOwnFields(t: TaskData)
    requires Encodable(t) && !t.kind.Plain?
    ensures DecodeFields(DropTrailingEmpty(Fields(t))) == if Storable(t) then Decoded(t) else Skipped
  {
    match t.kind
    case Todo => DecodeTodoFields(t);
    case Deadline(d) => DecodeDeadlineFields(t);
    case Event(from, to) => DecodeEventFields(t);
  }

  lemma DecodeTodoFields(t: TaskData)
    requires Encodable(t) && t.kind.Todo? && Trimmed(DoneFlag(t))
    ensures DecodeFields(DropTrailingEmpty(Fields(t))) == if Storable(t) then Decoded(t) else Skipped
  {
    var fs := Fields(t);
    TrimOfTrimmed("T");
    if t.description == [] {
      assert fs[..2] == ["T", DoneFlag(t)];
      assert DropTrailingEmpty(fs) == DropTrailingEmpty(fs[..2]) == fs[..2];
    } else {
      assert DropTrailingEmpty(fs) == fs;
    }
  }

  lemma DecodeDeadlineFields(t: TaskData)
    requires Encodable(t) && t.kind.Deadline? && Trimmed(DoneFlag(t))
    ensures DecodeFields(DropTrailingEmpty(Fields(t))) == Decoded(t)
  {
    var date := t.kind.byDate;
    IsoFieldOk(date);
    ParseFormatIso(date);
    DecodeDeadlineLine(t.description, DoneFlag(t), t.isDone, FormatIso(date), date);
    assert DropTrailingEmpty(Fields(t)) == Fields(t);
  }

  lemma DecodeDeadlineLine(description: string, flag: string, isDone: bool, iso: string, date: ValidDate)
    requires FieldOk(description) && Trimmed(flag) && (flag == "1" <==> isDone)
    requires FieldOk(iso) && ParseIso(iso) == Some(date)
    ensures DecodeFields(["D", flag, description, iso]) == Decoded(TaskData(description, isDone, Deadline(date)))
  {
    TrimOfTrimmed("D");
    TrimOfTrimmed(flag);
    TrimOfTrimmed(description);
    TrimOfTrimmed(iso);
  }

  lemma DecodeEventFields(t: TaskData)
    requires Encodable(t) && t.kind.Event? && Trimmed(DoneFlag(t))
    ensures DecodeFields(DropTrailingEmpty(Fields(t))) == if Storable(t) then Decoded(t) else Skipped
  {
    var fs := Fields(t);
    TrimOfTrimmed("E");
    var parts := DropTrailingEmpty(fs);
    if t.kind.to == [] {
      assert |parts| < 5;
      assert |parts| >= 1 ==> parts[0] == "E";
    } else {
      assert parts == fs;
    }
  }

  /**
   * Decoding what convertTaskToString wrote: an encodable task comes back
   * exactly when it is storable, and otherwise its line is skipped.
   */
  lemma DecodeEncode(t: TaskData)
    requires Encodable(t)
    ensures ParseTaskLine(ConvertTaskToString(t)) == if Storable(t) then Decoded(t) else Skipped
  {
    var line := ConvertTaskToString(t);
    ConvertIsJoin(t);
    if t.kind.Plain? {
      assert line == "";
      assert !Contains(line, "|");
      assert Split(line, "|") == [""];
    } else {
      FieldsFree(t);
      SplitOfJoin(Fields(t), '|');
      DecodeOwnFields(t);
    }
  }

  /** Fields free of '|' and of line terminators decode to an encodable task. */
  lemma DecodedFieldsEncodable(parts: seq<string>)
    requires forall k :: 0 <= k < |parts| ==> '|' !in parts[k] && NoLineTerminator(parts[k])
    requires DecodeFields(parts).Decoded?
    ensures Encodable(DecodeFields(parts).task)
  {
    forall k | 0 <= k < |parts|
      ensures FieldOk(Trim(parts[k]))
    {
      TrimFacts(parts[k]);
    }
  }

  /**
   * Every task decoded from a line without a line terminator is encodable:
   * its fields were trimmed and split on '|'.
   */
  lemma DecodedIsEncodable(line: string)
    requires NoLineTerminator(line)
    requires ParseTaskLine(line).Decoded?
    ensures Encodable(ParseTaskLine(line).task)
  {
    var parts := Split(line, "|");
    SplitFree(line, '|');
    SplitChars(line, "|");
    DecodedFieldsEncodable(parts);
  }

  // ------------------------------------------------------------ the file

  /** The length of the text before the first line terminator of s. */
  function LineLength(s: string): (n: nat)
    ensures n <= |s|
    ensures NoLineTerminator(s[..n])
    ensures n < |s| ==> IsLineTerminator(s[n])
  {
    if s == [] || IsLineTerminator(s[0]) then 0
    else
      var n := 1 + LineLength(s[1..]);
      assert s[..n] == [s[0]] + s[1..][..n - 1];
      n
  }

  /** The length of the terminator at index n: "\r\n" is one terminator of two characters. */
  function TerminatorLength(s: string, n: nat): (m: nat)
    requires n < |s|
    ensures 1 <= m && n + m <= |s|
  {
    if s[n] == '\r' && n + 1 < |s| && s[n + 1] == '\n' then 2 else 1
  }

  /**
   * The lines Scanner.nextLine hands out while hasNextLine holds: the text
   * between terminators, and the text after the last one if it is not empty.
   */
  function ScannerLines(s: string): (r: seq<string>)
    ensures forall i :: 0 <= i < |r| ==> NoLineTerminator(r[i])
    decreases |s|
  {
    if s == [] then []
    else
      var n := LineLength(s);
      if n == |s| then
        assert s[..n] == s;
        [s]
      else [s[..n]] + ScannerLines(s[n + TerminatorLength(s, n)..])
  }

  /** The two values System.lineSeparator takes. */
  predicate IsLineSeparator(sep: string)
  {
    sep == "\n" || sep == "\r\n"
  }

  /** The separator the model's save writes. */
  const LineSeparator: string := "\n"

  /** The text of a file to which each of lines was written followed by sep. */
  function Written(lines: seq<string>, sep: string): string
  {
    if lines == [] then "" else lines[0] + sep + Written(lines[1..], sep)
  }

  /** Nothing is written for no line, and otherwise the text ends with the separator. */
  lemma {:induction false} WrittenEnds(lines: seq<string>, sep: string)
    requires sep != []
    ensures Written(lines, sep) == "" <==> lines == []
    ensures lines != [] ==> |Written(lines, sep)| >= |sep|
    ensures lines != [] ==> Written(lines, sep)[|Written(lines, sep)| - |sep|..] == sep
  {
    if lines != [] {
      WrittenEnds(lines[1..], sep);
      var w := Written(lines, sep);
      if lines[1..] == [] {
        assert w == lines[0] + sep;
      } else {
        var v := Written(lines[1..], sep);
        assert w == lines[0] + sep + v;
        assert w[|w| - |sep|..] == v[|v| - |sep|..];
      }
    }
  }

  lemma {:induction false} WrittenAppend(lines: seq<string>, line: string, sep: string)
    ensures Written(lines + [line], sep) == Written(lines, sep) + line + sep
  {
    if lines != [] {
      assert (lines + [line])[1..] == lines[1..] + [line];
      WrittenAppend(lines[1..], line, sep);
    }
  }

  lemma {:induction false} LineLengthOf(line: string, rest: string)
    requires NoLineTerminator(line)
    requires rest == [] || IsLineTerminator(rest[0])
    ensures LineLength(line + rest) == |line|
  {
    if line == [] {
      assert line + rest == rest;
    } else {
      assert (line + rest)[1..] == line[1..] + rest;
      assert (line + rest)[0] == line[0];
      LineLengthOf(line[1..], rest);
    }
  }

  /** Scanner hands out a line followed by a separator, then reads on after the separator. */
  lemma ScannerLinesCons(line: string, sep: string, rest: string)
    requires IsLineSeparator(sep) && NoLineTerminator(line)
    ensures ScannerLines(line + sep + rest) == [line] + ScannerLines(rest)
  {
    var s := line + sep + rest;
    var n := |line|;
    assert s == line + (sep + rest);
    LineLengthOf(line, sep + rest);
    assert s[..n] == line;
    assert TerminatorLength(s, n) == |sep|;
    assert s[n + |sep|..] == rest;
  }

  lemma ScannerLinesStep(line: string, sep: string, tail: seq<string>, rest: string)
    requires IsLineSeparator(sep) && NoLineTerminator(line)
    requires ScannerLines(rest) == tail
    ensures ScannerLines(line + sep + rest) == [line] + tail
  {
    ScannerLinesCons(line, sep, rest);
  }

  /** Scanner reads back exactly the lines that were written, whichever separator was used. */
  lemma {:induction false} ScannerLinesOfWritten(lines: seq<string>, sep: string)
    requires IsLineSeparator(sep)
    requires forall i :: 0 <= i < |lines| ==> NoLineTerminator(lines[i])
    ensures ScannerLines(Written(lines, sep)) == lines
  {
    if lines != [] {
      var tail := lines[1..];
      assert forall i :: 0 <= i < |tail| ==> NoLineTerminator(tail[i]) by {
        forall i | 0 <= i < |tail| ensures NoLineTerminator(tail[i]) {
          assert tail[i] == lines[i + 1];
        }
      }
      ScannerLinesOfWritten(tail, sep);
      ScannerLinesStep(lines[0], sep, tail, Written(tail, sep));
      assert lines == [lines[0]] + tail;
    }
  }

  /** The lines save writes for the tasks, in order. */
  function SaveLines(ts: seq<TaskData>): (r: seq<string>)
    ensures |r| == |ts|
    ensures forall i {:trigger r[i]} :: 0 <= i < |ts| ==> r[i] == ConvertTaskToString(ts[i])
  {
    seq(|ts|, i requires 0 <= i < |ts| => ConvertTaskToString(ts[i]))
  }

  /** The file content after a save that succeeded. */
  function SaveText(ts: seq<TaskData>): (r: string)
    ensures r == "" <==> ts == []
    ensures ts != [] ==> r[|r| - 1] == '\n'
  {
    WrittenEnds(SaveLines(ts), LineSeparator);
    Written(SaveLines(ts), LineSeparator)
  }

  /**
   * The IOException a save can meet: opening the file fails before
   * FileWriter empties it, or a write fails once the first chars characters
   * of the text have reached the file, so that the file is cut anywhere,
   * inside a line too.
   */
  datatype SaveFault = OpenFailed | WriteFailed(chars: nat)

  /** The part of text in the file when a write fails after k characters. */
  function Reached(text: string, k: nat): (r: string)
    ensures r <= text && |r| == Min(k, |text|)
  {
    text[..Min(k, |text|)]
  }

  /** One step of load: the tasks so far and what the next line decodes to. */
  function Absorb(acc: Option<seq<TaskData>>, r: LineResult): Option<seq<TaskData>>
  {
    match acc
    case None => None
    case Some(ts) =>
      match r
      case Decoded(t) => Some(ts + [t])
      case Skipped => Some(ts)
      case BadDate => None
  }

  /** What parseTaskLine makes of each line, in order. */
  function DecodeAll(lines: seq<string>): seq<LineResult>
  {
    seq(|lines|, i requires 0 <= i < |lines| => ParseTaskLine(lines[i]))
  }

  /**
   * The tasks load collects from the decoded lines, in order: decoded lines
   * are kept, skipped lines ignored, and a bad date makes the whole load fail.
   */
  function Collect(rs: seq<LineResult>): (r: Option<seq<TaskData>>)
    ensures r.Some? ==> |r.value| <= |rs|
  {
    if rs == [] then Some([]) else Absorb(Collect(rs[..|rs| - 1]), rs[|rs| - 1])
  }

  /** The tasks load collects from the lines of a file. */
  function LoadLines(lines: seq<string>): Option<seq<TaskData>>
  {
    Collect(DecodeAll(lines))
  }

  lemma CollectAppend(rs: seq<LineResult>, r: LineResult)
    ensures Collect(rs + [r]) == Absorb(Collect(rs), r)
  {
    assert (rs + [r])[..|rs|] == rs;
  }

  /** One more line is one more step of load. */
  lemma LoadLinesAppend(lines: seq<string>, line: string)
    ensures LoadLines(lines + [line]) == Absorb(LoadLines(lines), ParseTaskLine(line))
  {
    assert DecodeAll(lines + [line]) == DecodeAll(lines) + [ParseTaskLine(line)];
    CollectAppend(DecodeAll(lines), ParseTaskLine(line));
  }

  /** The load of a prefix one line longer. */
  lemma LoadLinesPrefix(lines: seq<string>, i: nat)
    requires i < |lines|
    ensures LoadLines(lines[..i + 1]) == Absorb(LoadLines(lines[..i]), ParseTaskLine(lines[i]))
  {
    assert lines[..i + 1] == lines[..i] + [lines[i]];
    LoadLinesAppend(lines[..i], lines[i]);
  }

  /** What load makes of the content of an existing file. */
  function LoadText(content: string): Option<seq<TaskData>>
  {
    LoadLines(ScannerLines(content))
  }

  /** The storable tasks of ts, in order. */
  function Keep(ts: seq<TaskData>): (r: seq<TaskData>)
    ensures forall t :: t in r ==> t in ts && Storable(t)
    ensures (forall i :: 0 <= i < |ts| ==> Storable(ts[i])) ==> r == ts
  {
    if ts == [] then []
    else
      var init, last := ts[..|ts| - 1], ts[|ts| - 1];
      assert ts == init + [last];
      assert forall t :: t in init ==> t in ts;
      assert (forall i :: 0 <= i < |ts| ==> Storable(ts[i])) ==>
        Storable(last) && forall i :: 0 <= i < |init| ==> Storable(init[i]);
      Keep(init) + (if Storable(last) then [last] else [])
  }

  /** Loading what save wrote gives back the storable tasks, in order. */
  lemma {:induction false} LoadSave(ts: seq<TaskData>)
    requires forall i :: 0 <= i < |ts| ==> Encodable(ts[i])
    ensures LoadLines(SaveLines(ts)) == Some(Keep(ts))
  {
    if ts != [] {
      var n := |ts| - 1;
      var init, last := ts[..n], ts[n];
      var line := ConvertTaskToString(last);
      assert SaveLines(ts) == SaveLines(init) + [line];
      LoadSave(init);
      LoadLinesAppend(SaveLines(init), line);
      DecodeEncode(last);
      var r := ParseTaskLine(line);
      if Storable(last) {
        assert r == Decoded(last);
        assert Keep(ts) == Keep(init) + [last];
      } else {
        assert r == Skipped;
        assert Keep(ts) == Keep(init);
      }
    } else {
      assert SaveLines(ts) == [];
    }
  }

  /** The line of an encodable task holds no line terminator. */
  lemma ConvertOneLine(t: TaskData)
    requires Encodable(t)
    ensures NoLineTerminator(ConvertTaskToString(t))
  {
    if t.kind.Deadline? {
      IsoFieldOk(t.kind.byDate);
    }
  }

  /**
   * The round trip through the file: loading the text save wrote gives back
   * the storable tasks, so every task when all of them are storable.
   */
  lemma RoundTrip(ts: seq<TaskData>)
    requires forall i :: 0 <= i < |ts| ==> Encodable(ts[i])
    ensures LoadText(SaveText(ts)) == Some(Keep(ts))
    ensures (forall i :: 0 <= i < |ts| ==> Storable(ts[i])) ==> LoadText(SaveText(ts)) == Some(ts)
  {
    forall i | 0 <= i < |ts|
      ensures NoLineTerminator(SaveLines(ts)[i])
    {
      ConvertOneLine(ts[i]);
    }
    ScannerLinesOfWritten(SaveLines(ts), LineSeparator);
    LoadSave(ts);
  }

  /** Every task a load returns is encodable. */
  lemma {:induction false} LoadedAreEncodable(lines: seq<string>)
    requires forall i :: 0 <= i < |lines| ==> NoLineTerminator(lines[i])
    requires LoadLines(lines).Some?
    ensures forall i :: 0 <= i < |LoadLines(lines).value| ==> Encodable(LoadLines(lines).value[i])
  {
    if lines != [] {
      var init, last := lines[..|lines| - 1], lines[|lines| - 1];
      assert lines == init + [last];
      LoadLinesAppend(init, last);
      LoadedAreEncodable(init);
      if ParseTaskLine(last).Decoded? {
        DecodedIsEncodable(last);
      }
    }
  }

  /**
   * Saving what was loaded and loading again keeps every task except those
   * whose last field was blank; a second cycle changes nothing more.
   */
  lemma ReloadAfterSave(content: string)
    requires LoadText(content).Some?
    ensures LoadText(SaveText(LoadText(content).value)) == Some(Keep(LoadText(content).value))
    ensures LoadText(SaveText(Keep(LoadText(content).value))) == Some(Keep(LoadText(content).value))
  {
    var ts := LoadText(content).value;
    LoadedAreEncodable(ScannerLines(content));
    RoundTrip(ts);
    var kept := Keep(ts);
    assert forall i :: 0 <= i < |kept| ==> kept[i] in kept;
    RoundTrip(kept);
  }

  /** A failed collection stays failed whatever results follow. */
  lemma {:induction false} CollectFailureSticks(rs: seq<LineResult>, n: nat)
    requires n <= |rs| && Collect(rs[..n]).None?
    ensures Collect(rs).None?
    decreases |rs| - n
  {
    if n < |rs| {
      assert rs[..n + 1] == rs[..n] + [rs[n]];
      CollectAppend(rs[..n], rs[n]);
      CollectFailureSticks(rs, n + 1);
    } else {
      assert rs[..n] == rs;
    }
  }

  /** A failed load stays failed whatever lines follow. */
  lemma LoadFailureSticks(lines: seq<string>, n: nat)
    requires n <= |lines| && LoadLines(lines[..n]).None?
    ensures LoadLines(lines).None?
  {
    assert DecodeAll(lines[..n]) == DecodeAll(lines)[..n];
    CollectFailureSticks(DecodeAll(lines), n);
  }

  /** A collection fails exactly when one of the results is a bad date. */
  lemma {:induction false} CollectFailsExactly(rs: seq<LineResult>)
    ensures Collect(rs).None? <==> exists i :: 0 <= i < |rs| && rs[i].BadDate?
  {
    if rs != [] {
      var n := |rs| - 1;
      var init := rs[..n];
      CollectFailsExactly(init);
      if Collect(rs).None? {
        if Collect(init).None? {
          var i :| 0 <= i < |init| && init[i].BadDate?;
          assert rs[i].BadDate?;
        } else {
          assert rs[n].BadDate?;
        }
      } else {
        forall i | 0 <= i < |rs|
          ensures !rs[i].BadDate?
        {
          if i < n {
            assert rs[i] == init[i];
          }
        }
      }
    }
  }

  /** A load fails exactly when some line holds a deadline whose date does not parse. */
  lemma LoadFailsExactly(lines: seq<string>)
    ensures LoadLines(lines).None? <==> exists i :: 0 <= i < |lines| && ParseTaskLine(lines[i]).BadDate?
  {
    var rs := DecodeAll(lines);
    CollectFailsExactly(rs);
    assert forall i :: 0 <= i < |lines| ==> rs[i] == ParseTaskLine(lines[i]);
  }

  /** A file holding one line loads what that line decodes to. */
  lemma LoadOneLine(line: string)
    requires NoLineTerminator(line)
    ensures LoadText(line + LineSeparator) == Absorb(Some([]), ParseTaskLine(line))
  {
    assert Written([line], LineSeparator) == line + LineSeparator;
    ScannerLinesOfWritten([line], LineSeparator);
    assert ScannerLines(line + LineSeparator) == [line];
    assert [] + [line] == [line];
    LoadLinesAppend([], line);
  }

  /** The save of one task is its line and the separator. */
  lemma SaveOfOne(t: TaskData)
    ensures SaveText([t]) == ConvertTaskToString(t) + LineSeparator
  {
    var line := ConvertTaskToString(t);
    assert SaveLines([t]) == [line];
    assert [line][1..] == [];
    assert Written([line], LineSeparator) == line + LineSeparator + Written([], LineSeparator);
  }

  /** A deadline line cut inside its date: four fields, the last a date that does not parse. */
  lemma CutDeadlineLine(t: TaskData, j: nat)
    requires t.kind.Deadline? && Encodable(t)
    requires 0 < j < 10
    ensures var cut := "D|" + DoneFlag(t) + "|" + t.description + "|" + FormatIso(t.kind.byDate)[..j];
      ParseTaskLine(cut) == BadDate && NoLineTerminator(cut)
  {
    var flag, desc, w := DoneFlag(t), t.description, FormatIso(t.kind.byDate)[..j];
    IsoChars(t.kind.byDate);
    assert forall c :: c in w ==> IsDigit(c) || c == '-';
    CutFieldsDecode(flag, desc, w);
    CutFieldsOneLine(flag, desc, w);
  }

  /** The four fields of a cut deadline line come back from split, and the date fails. */
  lemma CutFieldsDecode(flag: string, desc: string, w: string)
    requires flag == "0" || flag == "1"
    requires '|' !in desc
    requires 0 < |w| < 10 && forall c :: c in w ==> IsDigit(c) || c == '-'
    ensures ParseTaskLine("D|" + flag + "|" + desc + "|" + w) == BadDate
  {
    var fs := ["D", flag, desc, w];
    assert "D|" == "D" + "|";
    JoinFour("D", flag, desc, w, "|");
    assert Join(fs, "|") == "D|" + flag + "|" + desc + "|" + w;
    assert forall k :: 0 <= k < |fs| ==> '|' !in fs[k];
    SplitOfJoin(fs, '|');
    TrimOfTrimmed("D");
    assert |Trim(w)| < 10;
    assert DecodeFields(fs) == BadDate;
  }

  /** A cut deadline line holds no line terminator. */
  lemma CutFieldsOneLine(flag: string, desc: string, w: string)
    requires flag == "0" || flag == "1"
    requires NoLineTerminator(desc)
    requires forall c :: c in w ==> IsDigit(c) || c == '-'
    ensures NoLineTerminator("D|" + flag + "|" + desc + "|" + w)
  {
    var a := "D|" + flag + "|";
    assert NoLineTerminator(a);
    assert NoLineTerminator(a + desc);
    assert NoLineTerminator(a + desc + "|");
    assert NoLineTerminator(w);
  }

  /** A file whose text ends without a line terminator still has that text as its last line. */
  lemma LoadUnterminated(line: string)
    requires line != [] && NoLineTerminator(line)
    ensures LoadText(line) == Absorb(Some([]), ParseTaskLine(line))
  {
    LineLengthOf(line, []);
    assert line + [] == line;
    assert ScannerLines(line) == [line];
    assert [] + [line] == [line];
    LoadLinesAppend([], line);
  }

  /** Cutting head + x + rest inside x. */
  lemma CutInside(head: string, x: string, rest: string, j: nat)
    requires j <= |x|
    ensures (head + x + rest)[..|head| + j] == head + x[..j]
  {
    var s := head + x + rest;
    assert forall i :: 0 <= i < |head| + j ==> s[i] == (head + x[..j])[i];
  }

  /**
   * A save of a deadline that stops inside its date leaves a line whose
   * date does not parse, so loading that file fails.
   */
  lemma CutInsideDateFailsLoad(t: TaskData, j: nat, text: string)
    requires t.kind.Deadline? && Encodable(t)
    requires 0 < j < 10
    requires text == SaveText([t])
    ensures |text| >= 11 && LoadText(Reached(text, |text| - 11 + j)).None?
  {
    var cut := "D|" + DoneFlag(t) + "|" + t.description + "|" + FormatIso(t.kind.byDate)[..j];
    SavedCut(t, j, text);
    CutDeadlineLine(t, j);
    LoadUnterminated(cut);
    LoadOfCut(text, |text| - 11 + j, cut);
  }

  /** Where the save of one deadline is cut inside its date. */
  lemma SavedCut(t: TaskData, j: nat, text: string)
    requires t.kind.Deadline? && 0 < j < 10
    requires text == SaveText([t])
    ensures |text| >= 11
    ensures Reached(text, |text| - 11 + j) == "D|" + DoneFlag(t) + "|" + t.description + "|" + FormatIso(t.kind.byDate)[..j]
  {
    var iso := FormatIso(t.kind.byDate);
    var head := "D|" + DoneFlag(t) + "|" + t.description + "|";
    SaveOfOne(t);
    assert text == head + iso + LineSeparator;
    assert |text| - 11 + j == |head| + j;
    CutInside(head, iso, LineSeparator, j);
  }

  lemma LoadOfCut(text: string, k: nat, cut: string)
    requires Reached(text, k) == cut && LoadText(cut).None?
    ensures LoadText(Reached(text, k)).None?
  {
  }

  /** The malformed line of the program's tests has too few usable fields and is skipped. */
  lemma MalformedLineSkipped()
    ensures ParseTaskLine("???|???|malformed") == Skipped
  {
    var fs := ["???", "???", "malformed"];
    assert Join(fs, "|") == "???|???|malformed" by {
      assert fs[1..][1..] == ["malformed"];
    }
    SplitOfJoin(fs, '|');
    TrimOfTrimmed("???");
  }

  /** Reading an empty file gives no task. */
  lemma EmptyFileLoadsEmpty()
    ensures LoadText("") == Some([])
  {
  }

  /** The two tasks of the program's save-and-load test can be stored. */
  lemma ExampleStorable()
    ensures Storable(Fresh("Buy groceries", Todo))
    ensures Storable(Fresh("Submit assignment", Deadline(Date(2025, 1, 1))))
  {
    assert FieldOk("Buy groceries");
    assert FieldOk("Submit assignment");
  }

  /** The save-and-load example of the program's tests. */
  lemma SaveAndLoadExample(ts: seq<TaskData>)
    requires ts == [Fresh("Buy groceries", Todo), Fresh("Submit assignment", Deadline(Date(2025, 1, 1)))]
    ensures LoadText(SaveText(ts)) == Some(ts)
  {
    ExampleStorable();
    assert Storable(ts[0]) && Storable(ts[1]);
    RoundTrip(ts);
  }

  /** The line saved for the to-do "a|b" has four fields. */
  lemma PipeSaved(fs: seq<string>)
    requires fs == ["T", "0", "a", "b"]
    ensures ConvertTaskToString(Fresh("a|b", Todo)) == Join(fs, "|")
  {
    assert fs[1..][1..][1..] == ["b"];
    assert Join(fs[1..][1..], "|") == "a" + "|" + "b";
    assert Join(fs, "|") == "T" + "|" + ("0" + "|" + ("a" + "|" + "b"));
  }

  /**
   * A '|' in a description splits the field when the line is read back:
   * a to-do "a|b" is saved as "T|0|a|b" and loaded as the to-do "a".
   */
  lemma PipeInDescriptionIsLost()
    ensures ParseTaskLine(ConvertTaskToString(Fresh("a|b", Todo))) == Decoded(Fresh("a", Todo))
  {
    var fs := ["T", "0", "a", "b"];
    PipeSaved(fs);
    SplitOfJoin(fs, '|');
    TrimOfTrimmed("T");
    TrimOfTrimmed("0");
    TrimOfTrimmed("a");
  }

  // ---------------------------------------------------------- the object

  /** How load ends. */
  datatype LoadOutcome =
    | Loaded(tasks: seq<Task>)
    | IoFailure    // an IOException: the file could not be created or opened
    | Aborted      // a DateTimeParseException from a deadline line

  /**
   * The object parseTaskLine builds for a decoded line: a new task of the
   * decoded class, marked as done when its flag was "1".
   */
  method MakeTask(d: TaskData) returns (t: Task)
    ensures fresh(t) && t.Data() == d
  {
    t := new Task(d.description, d.kind);
    if d.isDone {
      t.MarkAsDone();
    }
  }

  /**
   * One line's share of load: a decoded line adds a new task object after
   * the ones so far, a malformed line adds nothing and a bad date ends the
   * load (None).
   */
  method AddDecoded(tasks: seq<Task>, decoded: LineResult) returns (r: Option<seq<Task>>)
    requires Distinct(tasks)
    ensures r.None? <==> decoded.BadDate?
    ensures r.Some? ==> Some(Snapshot(r.value)) == Absorb(Some(Snapshot(tasks)), decoded)
    ensures r.Some? ==> Distinct(r.value) && forall t :: t in r.value ==> t in tasks || fresh(t)
  {
    match decoded {
      case Decoded(d) =>
        var t := MakeTask(d);
        SnapshotAppend(tasks, t);
        r := Some(tasks + [t]);
      case Skipped =>
        r := Some(tasks);
      case BadDate =>
        r := None;
    }
  }

  /** One turn of load's loop: line i decoded onto the tasks read from the lines before it. */
  method ReadLine(lines: seq<string>, i: nat, tasks: seq<Task>) returns (next: Option<seq<Task>>)
    requires i < |lines| && Distinct(tasks) && LoadLines(lines[..i]) == Some(Snapshot(tasks))
    ensures next.None? ==> LoadLines(lines).None?
    ensures next.Some? ==> LoadLines(lines[..i + 1]) == Some(Snapshot(next.value))
    ensures next.Some? ==> Distinct(next.value) && forall t :: t in next.value ==> t in tasks || fresh(t)
  {
    LoadLinesPrefix(lines, i);
    next := AddDecoded(tasks, ParseTaskLine(lines[i]));
    if next.None? {
      LoadFailureSticks(lines, i + 1);
    }
  }

  /**
   * The loop of load: each line is decoded in order and a task object made
   * for each decoded line; a bad date ends the load.
   */
  method ReadTasks(lines: seq<string>) returns (r: LoadOutcome)
    ensures LoadLines(lines).None? ==> r == Aborted
    ensures LoadLines(lines).Some? ==> r.Loaded? && Snapshot(r.tasks) == LoadLines(lines).value
    ensures r.Loaded? ==> Distinct(r.tasks) && forall t :: t in r.tasks ==> fresh(t)
  {
    var tasks: seq<Task> := [];
    var i := 0;
    while i < |lines|
      invariant 0 <= i <= |lines|
      invariant LoadLines(lines[..i]) == Some(Snapshot(tasks))
      invariant Distinct(tasks) && forall t :: t in tasks ==> fresh(t)
    {
      var next := ReadLine(lines, i, tasks);
      if next.None? {
        return Aborted;
      }
      tasks := next.value;
      i := i + 1;
    }
    assert lines[..i] == lines;
    return Loaded(tasks);
  }

  class Storage {
    const filePath: string
    /** The content of the data file; None while the file does not exist. */
    var file: Option<string>

    /** A storage object over a file whose current content is disk. */
    constructor (filePath: string, disk: Option<string>)
      ensures this.filePath == filePath && file == disk
    {
      this.filePath := filePath;
      file := disk;
    }

    /**
     * load: a missing file is created empty and gives no task; otherwise
     * every line is decoded in order. ioFails stands for the IOException
     * of creating or opening the file.
     */
    method Load(ioFails: bool) returns (r: LoadOutcome)
      modifies this
      ensures ioFails ==> r == IoFailure && file == old(file)
      ensures !ioFails && old(file).None? ==> r == Loaded([]) && file == Some("")
      ensures !ioFails && old(file).Some? ==> file == old(file)
      ensures !ioFails && old(file).Some? && LoadText(old(file).value).None? ==> r == Aborted
      ensures !ioFails && old(file).Some? && LoadText(old(file).value).Some? ==>
                r.Loaded? && Snapshot(r.tasks) == LoadText(old(file).value).value
      ensures r.Loaded? ==> Distinct(r.tasks) && forall t :: t in r.tasks ==> fresh(t)
    {
      if ioFails {
        return IoFailure;
      }
      if file.None? {
        file := Some("");
        return Loaded([]);
      }
      r := ReadTasks(ScannerLines(file.value));
    }

    /**
     * save: new FileWriter empties the file, every task's line is handed to
     * the writer followed by the line separator, and close flushes it. A
     * fault is the IOException save meets (see SaveFault).
     */
    method Save(ts: seq<Task>, fault: Option<SaveFault>) returns (ok: bool)
      modifies this
      ensures ok <==> fault.None?
      ensures fault.None? ==> file == Some(SaveText(Snapshot(ts)))
      ensures fault == Some(OpenFailed) ==> file == old(file)
      ensures fault.Some? && fault.value.WriteFailed? ==>
                file == Some(Reached(SaveText(Snapshot(ts)), fault.value.chars))
    {
      ok := WriteLines(SaveLines(Snapshot(ts)), fault);
    }

    /**
     * The writing loop of save, over the lines of the tasks. The writer
     * buffers what it is handed, so which part of it is in the file when a
     * write fails is the fault's to say; the lines handed after that point
     * cannot change it.
     */
    method WriteLines(lines: seq<string>, fault: Option<SaveFault>) returns (ok: bool)
      modifies this
      ensures ok <==> fault.None?
      ensures fault.None? ==> file == Some(Written(lines, LineSeparator))
      ensures fault == Some(OpenFailed) ==> file == old(file)
      ensures fault.Some? && fault.value.WriteFailed? ==>
                file == Some(Reached(Written(lines, LineSeparator), fault.value.chars))
    {
      if fault == Some(OpenFailed) {
        return false;
      }
      file := Some("");
      var sent := "";
      var i := 0;
      while i < |lines|
        invariant 0 <= i <= |lines|
        invariant sent == Written(lines[..i], LineSeparator)
      {
        assert lines[..i + 1] == lines[..i] + [lines[i]];
        WrittenAppend(lines[..i], lines[i], LineSeparator);
        sent := sent + lines[i] + LineSeparator;
        i := i + 1;
      }
      assert lines[..i] == lines;
      match fault
      case None =>
        file := Some(sent);
        ok := true;
      case Some(f) =>
        file := Some(Reached(sent, f.chars));
        ok := false;
    }
  }
}
