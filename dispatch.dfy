/**
 * The read-eval loop of the interactive client. Every line is classified by
 * an ordered chain of prefix checks; the chosen action is handed on (SQL and
 * the table and index listings go to the renderer, `resql_cli_rep`, with the
 * session's vertical flag), and every line except an unrecognised
 * dot-command is added to the history.
 */
module Dispatch {
  import opened CStrings
  import Completion

  datatype Option<T> = None | Some(value: T)

  datatype Command =
    | RunSql
    | Help
    | ToggleVertical
    | AllTables
    | Tables
    | Indexes
    | AllIndexes
    | Schema
    | Unrecognized
    | Blank

  /**
   * The dot-commands in the order the loop tests them, with what each
   * selects. A test is `strncmp(line, k, strlen(k)) == 0`, that is, `k` is a
   * prefix of the line.
   */
  const Keywords: seq<(string, Command)> := [
    (".help", Help),
    (".vertical", ToggleVertical),
    (".alltables", AllTables),
    (".tables", Tables),
    (".indexes", Indexes),
    (".allindexes", AllIndexes),
    (".schema", Schema)
  ]

  /** The first keyword, from position `from` on, that prefixes the line. */
  function FirstKeyword(line: string, from: nat): Option<Command>
    requires from <= |Keywords|
    decreases |Keywords| - from
  {
    if from == |Keywords| then None
    else if Keywords[from].0 <= line then Some(Keywords[from].1)
    else FirstKeyword(line, from + 1)
  }

  /**
   * The classification chain of the main loop: a non-empty line that does
   * not start with '.' is SQL; otherwise the first keyword that prefixes it
   * wins; a dot-line that none prefixes is unrecognised; the empty line
   * matches nothing.
   */
  function Classify(line: string): Command
  {
    if |line| > 0 && line[0] != '.' then RunSql
    else
      match FirstKeyword(line, 0)
      case Some(c) => c
      case None => if |line| > 0 then Unrecognized else Blank
  }

  /** A keyword prefixes the line exactly when the search from `from` finds one. */
  lemma {:induction false} FirstKeywordNoneIff(line: string, from: nat)
    requires from <= |Keywords|
    ensures FirstKeyword(line, from).None? <==>
      forall k :: from <= k < |Keywords| ==> !(Keywords[k].0 <= line)
    decreases |Keywords| - from
  {
    if from < |Keywords| {
      FirstKeywordNoneIff(line, from + 1);
    }
  }

  /** SQL is exactly the non-empty lines that do not start with '.'. */
  lemma ClassifyRunSqlIff(line: string)
    ensures Classify(line) == RunSql <==> |line| > 0 && line[0] != '.'
  {
    if |line| == 0 || line[0] == '.' {
      FirstKeywordNoneIff(line, 0);
      if FirstKeyword(line, 0).Some? {
        KeywordResultIsKeyword(line, 0);
      }
    }
  }

  /** What the keyword search finds is always one of the keywords' commands. */
  lemma {:induction false} KeywordResultIsKeyword(line: string, from: nat)
    requires from <= |Keywords|
    requires FirstKeyword(line, from).Some?
    ensures exists k :: from <= k < |Keywords| && Keywords[k].1 == FirstKeyword(line, from).value
    decreases |Keywords| - from
  {
    if !(Keywords[from].0 <= line) {
      KeywordResultIsKeyword(line, from + 1);
    }
  }

  /**
   * A dot-line is unrecognised exactly when no keyword prefixes it; then
   * nothing else happens but the complaint and the help text.
   */
  lemma ClassifyUnrecognizedIff(line: string)
    ensures Classify(line) == Unrecognized <==>
      |line| > 0 && line[0] == '.' && forall k :: 0 <= k < |Keywords| ==> !(Keywords[k].0 <= line)
  {
    FirstKeywordNoneIff(line, 0);
    if FirstKeyword(line, 0).Some? {
      KeywordResultIsKeyword(line, 0);
    }
  }

  /**
   * A keyword followed by anything selects that keyword's command: no
   * keyword tested earlier is a prefix of a keyword tested later.
   */
  lemma KeywordWithSuffix(i: nat, rest: string)
    requires i < |Keywords|
    ensures Classify(Keywords[i].0 + rest) == Keywords[i].1
  {
    var line := Keywords[i].0 + rest;
    assert line[..|Keywords[i].0|] == Keywords[i].0;
    assert Keywords[i].0 <= line;
    EarlierKeywordsDiffer(i, line);
    FirstKeywordSkips(line, 0, i);
  }

  /** Every keyword before position `i` disagrees with keyword `i` somewhere. */
  lemma EarlierKeywordsDiffer(i: nat, line: string)
    requires i < |Keywords| && Keywords[i].0 <= line
    ensures forall k :: 0 <= k < i ==> !(Keywords[k].0 <= line)
  {
    forall k | 0 <= k < i ensures !(Keywords[k].0 <= line) {
      KeywordsDiffer(k, i);
      var p := KeywordClash(k, i);
      assert Keywords[k].0[p] != line[p];
    }
  }

  /** A position where keyword `k` and the later keyword `i` disagree. */
  function KeywordClash(k: nat, i: nat): nat
    requires k < i < |Keywords|
  {
    if Keywords[k].0[1] != Keywords[i].0[1] then 1 else 4
  }

  /** Two keywords disagree at position 1, or, when both are ".all…", at 4. */
  lemma KeywordsDiffer(k: nat, i: nat)
    requires k < i < |Keywords|
    ensures KeywordClash(k, i) < |Keywords[k].0| && KeywordClash(k, i) < |Keywords[i].0|
    ensures Keywords[k].0[KeywordClash(k, i)] != Keywords[i].0[KeywordClash(k, i)]
  {
  }

  /** The search walks past keywords that do not prefix the line. */
  lemma {:induction false} FirstKeywordSkips(line: string, from: nat, i: nat)
    requires from <= i < |Keywords| && Keywords[i].0 <= line
    requires forall k :: from <= k < i ==> !(Keywords[k].0 <= line)
    ensures FirstKeyword(line, from) == Some(Keywords[i].1)
    decreases i - from
  {
    if from < i {
      FirstKeywordSkips(line, from + 1, i);
    }
  }

  /** Every command completion can offer is one the loop recognises. */
  lemma OfferedCommandsRecognised(j: nat)
    requires j < |Completion.Commands|
    ensures Classify(Completion.Commands[j]) !in {RunSql, Unrecognized, Blank}
  {
    var i :| 0 <= i < |Keywords| && Keywords[i].0 == Completion.Commands[j] by {
      CommandIsKeyword(j);
    }
    KeywordWithSuffix(i, "");
    assert Keywords[i].0 + "" == Keywords[i].0;
  }

  /** The completion table and the keyword chain name the same commands. */
  lemma CommandIsKeyword(j: nat)
    requires j < |Completion.Commands|
    ensures exists i :: 0 <= i < |Keywords| && Keywords[i].0 == Completion.Commands[j]
  {
    var table := [3, 6, 0, 4, 2, 5, 1];
    assert Keywords[table[j]].0 == Completion.Commands[j];
  }

  // -------------------------------------------------------------------------
  // .schema

  /** The position of the last space, as `strrchr` finds it. */
  function LastSpace(s: string): (o: Option<nat>)
    ensures o.Some? ==>
      (o.value < |s| && s[o.value] == ' ' && forall k :: o.value < k < |s| ==> s[k] != ' ')
    ensures o.None? ==> forall k :: 0 <= k < |s| ==> s[k] != ' '
  {
    if s == [] then None
    else if s[|s| - 1] == ' ' then Some(|s| - 1)
    else LastSpace(s[..|s| - 1])
  }

  /** The table name of `.schema`: what follows the last space, when anything does. */
  function SchemaArg(line: string): Option<string>
  {
    match LastSpace(line)
    case None => None
    case Some(p) => if p + 1 == |line| then None else Some(line[p + 1..])
  }

  /**
   * The argument is exactly a non-empty space-free tail that follows a
   * space.
   */
  lemma SchemaArgSomeIff(line: string, a: string)
    ensures SchemaArg(line) == Some(a) <==>
      a != [] && (forall k :: 0 <= k < |a| ==> a[k] != ' ') &&
      |a| < |line| && line[|line| - |a| - 1..] == [' '] + a
  {
    var n := |line| - |a| - 1;
    if a != [] && (forall k :: 0 <= k < |a| ==> a[k] != ' ') &&
       |a| < |line| && line[n..] == [' '] + a {
      assert line[n] == ' ';
      forall k | n < k < |line| ensures line[k] != ' ' {
        assert line[n..][k - n] == a[k - n - 1];
      }
      var o := LastSpace(line);
      assert o.Some? && o.value == n;
      assert line[n + 1..] == line[n..][1..];
    }
    if SchemaArg(line) == Some(a) {
      var p := LastSpace(line).value;
      assert p == n;
      assert line[n..] == [' '] + line[n + 1..];
    }
  }

  /** No argument exactly when the line has no space or ends in one. */
  lemma SchemaArgNoneIff(line: string)
    ensures SchemaArg(line) == None <==>
      (forall k :: 0 <= k < |line| ==> line[k] != ' ') || line[|line| - 1] == ' '
  {
  }

  const SchemaUsage: string := "Syntax : .schema mytable"

  /** The `snprintf` into a 1024-byte buffer keeps at most 1023 characters. */
  const QueryCapacity: nat := 1023

  /** The statement `.schema <table>` runs. */
  function SchemaQuery(arg: string): (q: string)
    ensures |q| <= QueryCapacity
    ensures |arg| <= QueryCapacity - |"PRAGMA table_info([])"| ==> q == "PRAGMA table_info([" + arg + "])"
    ensures |arg| > QueryCapacity - |"PRAGMA table_info([])"| ==> q == ("PRAGMA table_info([" + arg + "])")[..QueryCapacity]
  {
    Truncated("PRAGMA table_info([" + arg + "])", QueryCapacity)
  }

  const UserTablesQuery: string :=
    "SELECT name FROM sqlite_master WHERE type ='table' AND name NOT LIKE 'sqlite_%' AND name NOT LIKE 'resql_%'"
  const AllTablesQuery: string := "SELECT name FROM sqlite_master WHERE type ='table'"
  const UserIndexesQuery: string :=
    "SELECT name FROM sqlite_master WHERE type ='index' AND name NOT LIKE 'sqlite_%' AND name NOT LIKE 'resql_%'"
  const AllIndexesQuery: string := "SELECT name FROM sqlite_master WHERE type ='index'"

  // -------------------------------------------------------------------------
  // One line of the loop

  /** What handling a line does besides updating the flag and the history. */
  datatype Action =
    | Execute(sql: string)
    | ShowHelp
    | ShowVertical(message: string)
    | ShowUsage(message: string)
    | RejectUnknown(message: string)
    | Nothing

  function VerticalMessage(vertical: bool): string
  {
    "Vertical : " + (if vertical then "true" else "auto") + " \n"
  }

  /** The action a line calls for, given the flag after the line. */
  function ActionOf(line: string, vertical: bool): Action
  {
    match Classify(line)
    case RunSql => Execute(line)
    case Help => ShowHelp
    case ToggleVertical => ShowVertical(VerticalMessage(vertical))
    case AllTables => Execute(AllTablesQuery)
    case Tables => Execute(UserTablesQuery)
    case Indexes => Execute(UserIndexesQuery)
    case AllIndexes => Execute(AllIndexesQuery)
    case Schema =>
      (match SchemaArg(line)
       case None => ShowUsage(SchemaUsage)
       case Some(a) => Execute(SchemaQuery(a)))
    case Unrecognized => RejectUnknown("Unrecognized command: " + line + "\n\n")
    case Blank => Nothing
  }

  /** The flag after a line: `.vertical` flips it. */
  function NextVertical(vertical: bool, line: string): bool
  {
    if Classify(line) == ToggleVertical then !vertical else vertical
  }

  /** Whether the line reaches `linenoiseHistoryAdd`. */
  predicate Recorded(line: string)
  {
    Classify(line) != Unrecognized
  }

  /** The flag after a whole sequence of lines. */
  function FinalVertical(vertical: bool, lines: seq<string>): bool
  {
    if lines == [] then vertical
    else NextVertical(FinalVertical(vertical, lines[..|lines| - 1]), lines[|lines| - 1])
  }

  /** The history entries a sequence of lines adds. */
  function RecordedLines(lines: seq<string>): seq<string>
  {
    if lines == [] then []
    else
      var rest := RecordedLines(lines[..|lines| - 1]);
      if Recorded(lines[|lines| - 1]) then rest + [lines[|lines| - 1]] else rest
  }

  /** The actions a sequence of lines calls for. */
  function Actions(vertical: bool, lines: seq<string>): seq<Action>
  {
    if lines == [] then []
    else
      var init := lines[..|lines| - 1];
      var v := NextVertical(FinalVertical(vertical, init), lines[|lines| - 1]);
      Actions(vertical, init) + [ActionOf(lines[|lines| - 1], v)]
  }

  /** The number of `.vertical` lines. */
  function Toggles(lines: seq<string>): nat
  {
    if lines == [] then 0
    else Toggles(lines[..|lines| - 1]) + (if Classify(lines[|lines| - 1]) == ToggleVertical then 1 else 0)
  }

  /** The flag ends flipped exactly when `.vertical` was given an odd number of times. */
  lemma {:induction false} FinalVerticalParity(vertical: bool, lines: seq<string>)
    ensures FinalVertical(vertical, lines) == (vertical != (Toggles(lines) % 2 == 1))
  {
    if lines != [] {
      FinalVerticalParity(vertical, lines[..|lines| - 1]);
    }
  }

  /** `.vertical` twice in a row restores the flag, whatever follows the keyword. */
  lemma ToggleTwice(vertical: bool, a: string, b: string)
    ensures NextVertical(NextVertical(vertical, ".vertical" + a), ".vertical" + b) == vertical
  {
    KeywordWithSuffix(1, a);
    KeywordWithSuffix(1, b);
  }

  /** The history gains exactly the lines that are not unrecognised dot-commands, in order. */
  lemma {:induction false} RecordedLinesMembers(lines: seq<string>, l: string)
    ensures l in RecordedLines(lines) <==> l in lines && Recorded(l)
  {
    if lines != [] {
      var init := lines[..|lines| - 1];
      RecordedLinesMembers(init, l);
      assert lines == init + [lines[|lines| - 1]];
    }
  }

  /** An unrecognised dot-command never reaches the history. */
  lemma UnrecognizedNotRecorded(lines: seq<string>, l: string)
    requires l in lines && |l| > 0 && l[0] == '.'
    requires forall k :: 0 <= k < |Keywords| ==> !(Keywords[k].0 <= l)
    ensures l !in RecordedLines(lines)
  {
    ClassifyUnrecognizedIff(l);
    RecordedLinesMembers(lines, l);
  }

  // -------------------------------------------------------------------------
  // The session

  /** The client state the loop changes: the vertical flag and the line history. */
  class Session {
    var vertical: bool
    var history: seq<string>

    /** `resql_cli_init` sets the flag off; the history starts as loaded from its file. */
    constructor (saved: seq<string>)
      ensures !vertical && history == saved
    {
      vertical := false;
      history := saved;
    }

    /** One turn of the loop for one line. */
    method Submit(line: string) returns (a: Action)
      modifies this
      ensures vertical == NextVertical(old(vertical), line)
      ensures history == old(history) + (if Recorded(line) then [line] else [])
      ensures a == ActionOf(line, vertical)
    {
      var c := Classify(line);
      if c == ToggleVertical {
        vertical := !vertical;
      }
      a := ActionOf(line, vertical);
      if c == Unrecognized {
        return;
      }
      history := history + [line];
    }

    /** The loop over the lines read until end of input. */
    method Run(lines: seq<string>) returns (actions: seq<Action>)
      modifies this
      ensures vertical == FinalVertical(old(vertical), lines)
      ensures history == old(history) + RecordedLines(lines)
      ensures actions == Actions(old(vertical), lines)
    {
      actions := [];
      var i := 0;
      while i < |lines|
        invariant 0 <= i <= |lines|
        invariant vertical == FinalVertical(old(vertical), lines[..i])
        invariant history == old(history) + RecordedLines(lines[..i])
        invariant actions == Actions(old(vertical), lines[..i])
      {
        assert lines[..i + 1][..i] == lines[..i];
        var a := Submit(lines[i]);
        actions := actions + [a];
        i := i + 1;
      }
      assert lines[..|lines|] == lines;
    }
  }
}
