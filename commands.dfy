/**
 * robert.command.CommandType and robert.parser.Parser: the classification of
 * a line of user input into the kind of command it asks for.
 */
module Commands {
  import opened JavaStrings

  /** The recognised command kinds, in the order the enum declares them. */
  datatype CommandType =
    | List | Bye | Mark | Unknown | Deadline | Todo | Delete | Event | Empty | Find | Unmark | Sort

  /** The kinds that have a keyword: all but Unknown and Empty. */
  predicate HasKeyword(c: CommandType)
  {
    !c.Unknown? && !c.Empty?
  }

  /** The keyword of each kind that has one. */
  function Keyword(c: CommandType): (k: string)
    requires HasKeyword(c)
    ensures k != [] && forall i :: 0 <= i < |k| ==> 'a' <= k[i] <= 'z'
  {
    match c
    case Bye => "bye"
    case List => "list"
    case Mark => "mark"
    case Unmark => "unmark"
    case Delete => "delete"
    case Todo => "todo"
    case Deadline => "deadline"
    case Event => "event"
    case Find => "find"
    case Sort => "sort"
  }

  /** The kind whose keyword is w, if any. */
  function KindOf(w: string): (c: CommandType)
    ensures c.Unknown? || (HasKeyword(c) && Keyword(c) == w)
  {
    if w == "bye" then Bye
    else if w == "list" then List
    else if w == "mark" then Mark
    else if w == "unmark" then Unmark
    else if w == "delete" then Delete
    else if w == "todo" then Todo
    else if w == "deadline" then Deadline
    else if w == "event" then Event
    else if w == "find" then Find
    else if w == "sort" then Sort
    else Unknown
  }

  /** No two kinds share a keyword, so KindOf reads back every keyword. */
  lemma KindOfKeyword(c: CommandType)
    requires HasKeyword(c)
    ensures KindOf(Keyword(c)) == c
  {
  }

  /** KindOf picks a kind with a keyword exactly for that keyword. */
  lemma KindOfExactly(w: string, c: CommandType)
    requires HasKeyword(c)
    ensures KindOf(w) == c <==> w == Keyword(c)
  {
    if w == Keyword(c) {
      KindOfKeyword(c);
    }
  }

  /**
   * CommandType.parseCommand: blank input is Empty; otherwise the input,
   * lower-cased but not trimmed, must be a keyword.
   */
  function ParseCommand(input: string): (c: CommandType)
    ensures c.Empty? <==> AllTrimmable(input)
    ensures HasKeyword(c) ==> ToLower(input) == Keyword(c)
  {
    TrimFacts(input);
    if Trim(input) == "" then Empty else KindOf(ToLower(input))
  }

  /** parseCommand answers Empty exactly for the blank inputs. */
  lemma ParseCommandEmpty(input: string)
    ensures ParseCommand(input) == Empty <==> AllTrimmable(input)
  {
    TrimFacts(input);
  }

  /** Each kind with a keyword is chosen exactly by the inputs that lower-case to that keyword. */
  lemma ParseCommandKeyword(input: string, c: CommandType)
    requires HasKeyword(c)
    ensures ParseCommand(input) == c <==> ToLower(input) == Keyword(c)
  {
    TrimFacts(input);
    LowerKeepsTrimmable(input);
    KindOfExactly(ToLower(input), c);
    if ToLower(input) == Keyword(c) {
      assert !IsTrimmable(ToLower(input)[0]);
    }
  }

  /** Every other non-blank input is Unknown. */
  lemma ParseCommandUnknown(input: string)
    ensures ParseCommand(input) == Unknown <==>
              !AllTrimmable(input) && forall c :: HasKeyword(c) ==> ToLower(input) != Keyword(c)
  {
    TrimFacts(input);
    forall c | HasKeyword(c)
      ensures ParseCommand(input) == c <==> ToLower(input) == Keyword(c)
    {
      ParseCommandKeyword(input, c);
    }
  }

  /** Lower-casing twice changes nothing more. */
  lemma {:induction false} ToLowerIdempotent(s: string)
    ensures ToLower(ToLower(s)) == ToLower(s)
  {
    assert forall i :: 0 <= i < |s| ==> LowerChar(LowerChar(s[i])) == LowerChar(s[i]);
  }

  /** Matching ignores case: an input and its lower case are the same command. */
  lemma ParseCommandIgnoresCase(input: string)
    ensures ParseCommand(ToLower(input)) == ParseCommand(input)
  {
    TrimFacts(input);
    TrimFacts(ToLower(input));
    LowerKeepsTrimmable(input);
    ToLowerIdempotent(input);
  }

  /** The keywords in other casings, and a keyword with a space around it. */
  lemma ParseCommandExamples()
    ensures ParseCommand("LIST") == List
    ensures ParseCommand("ToDo") == Todo
    ensures ParseCommand("list ") == Unknown
    ensures ParseCommand("   ") == Empty
  {
    assert ToLower("LIST") == "list";
    assert ToLower("ToDo") == "todo";
    assert Trim("list ") != "" by {
      TrimFacts("list ");
    }
  }

  /**
   * Parser.parse: blank input is Unknown; otherwise the kind of the text
   * before the first space.
   */
  function Parse(fullCommand: string): (c: CommandType)
    ensures AllTrimmable(fullCommand) ==> c.Unknown?
    ensures c.Empty? <==> !AllTrimmable(fullCommand) && AllTrimmable(SplitLimit2(fullCommand, " ")[0])
    ensures HasKeyword(c) ==> ToLower(SplitLimit2(fullCommand, " ")[0]) == Keyword(c)
  {
    TrimFacts(fullCommand);
    if Trim(fullCommand) == "" then Unknown
    else ParseCommand(SplitLimit2(fullCommand, " ")[0])
  }

  /** Parse is Unknown for blank input, where parseCommand alone would say Empty. */
  lemma ParseBlank(fullCommand: string)
    requires AllTrimmable(fullCommand)
    ensures Parse(fullCommand) == Unknown
    ensures ParseCommand(fullCommand) == Empty
  {
    TrimFacts(fullCommand);
  }

  /** Only the text before the first space counts. */
  lemma ParseFirstWord(w: string, rest: string)
    requires ' ' !in w
    ensures Parse(w + " " + rest) == if AllTrimmable(w + " " + rest) then Unknown else ParseCommand(w)
  {
    var full := w + " " + rest;
    assert full[..|w|] == w;
    IndexOfChar(full, ' ', |w|);
    TrimFacts(full);
  }

  /** A line without a space is classified whole. */
  lemma ParseOneWord(w: string)
    requires ' ' !in w
    ensures Parse(w) == if AllTrimmable(w) then Unknown else ParseCommand(w)
  {
    ContainsChar(w, ' ');
    TrimFacts(w);
  }

  /** A line that starts with a space but is not blank is Empty: its first piece is "". */
  lemma ParseLeadingSpace(rest: string)
    requires !AllTrimmable(rest)
    ensures Parse(" " + rest) == Empty
  {
    assert "" + " " + rest == " " + rest;
    ParseFirstWord("", rest);
    assert !AllTrimmable(" " + rest) by {
      var i :| 0 <= i < |rest| && !IsTrimmable(rest[i]);
      assert (" " + rest)[i + 1] == rest[i];
    }
    TrimFacts("");
  }

  /**
   * A line Parse gives a keyword kind starts with that keyword in some casing,
   * followed by the end of the line or a space, so the handler's substring
   * after the keyword is in range.
   */
  lemma ParseKeywordPrefix(fullCommand: string, c: CommandType)
    requires HasKeyword(c) && Parse(fullCommand) == c
    ensures |Keyword(c)| <= |fullCommand|
    ensures ToLower(fullCommand[..|Keyword(c)|]) == Keyword(c)
    ensures |Keyword(c)| == |fullCommand| || fullCommand[|Keyword(c)|] == ' '
  {
    SplitLimit2FirstPiece(fullCommand, ' ');
    var w := SplitLimit2(fullCommand, " ")[0];
    assert [' '] == " ";
    ParseCommandKeyword(w, c);
  }

  /** The classifications the program's tests expect. */
  lemma ParseEmptyExample()
    ensures Parse("") == Unknown
  {
  }

  /** A keyword, a space and any arguments: the keyword decides. */
  lemma ParseKeywordLine(c: CommandType, rest: string)
    requires HasKeyword(c)
    ensures Parse(Keyword(c) + " " + rest) == c
  {
    var k := Keyword(c);
    ParseFirstWord(k, rest);
    assert (k + " " + rest)[0] == k[0];
    assert ToLower(k) == k by {
      assert forall i :: 0 <= i < |k| ==> LowerChar(k[i]) == k[i];
    }
    ParseCommandKeyword(k, c);
  }

  lemma ParseTodoExample()
    ensures Parse("todo" + " " + "read book") == Todo
  {
    ParseKeywordLine(Todo, "read book");
  }

  /** A keyword alone is its kind. */
  lemma ParseKeywordAlone(c: CommandType)
    requires HasKeyword(c)
    ensures Parse(Keyword(c)) == c
  {
    var k := Keyword(c);
    assert ' ' !in k;
    ParseOneWord(k);
    assert !IsTrimmable(k[0]);
    assert ToLower(k) == k by {
      assert forall i :: 0 <= i < |k| ==> LowerChar(k[i]) == k[i];
    }
    ParseCommandKeyword(k, c);
  }

  lemma ParseByeExample()
    ensures Parse("bye") == Bye
  {
    ParseKeywordAlone(Bye);
  }

  lemma ParseRandomExample()
    ensures Parse("randomstuff") == Unknown
  {
    ParseOneWord("randomstuff");
    assert !IsTrimmable("randomstuff"[0]);
  }
}
