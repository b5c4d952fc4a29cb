/**
 * ConsoleApplication: shows the title, then runs the menu until the exit command is
 * chosen (RunAsync) or exactly once (RunOnceAsync).
 */
module ConsoleApp {
  import opened Wrappers
  import Text
  import opened ConsoleCommands
  import opened Menu
  import MenuSelection

  datatype ConsoleColor =
    | Black | DarkBlue | DarkGreen | DarkCyan | DarkRed | DarkMagenta | DarkYellow | Gray
    | DarkGray | Blue | Green | Cyan | Red | Magenta | Yellow | White

  /** A text with an optional colour. */
  datatype ConsoleMessage = ConsoleMessage(text: string, color: Option<ConsoleColor>)

  /** `new string(Enumerable.Repeat('=', text.Length * 2 + 1).ToArray())`. */
  function Border(text: string): (border: string)
    ensures |border| == 2 * |text| + 1
    ensures forall i | 0 <= i < |border| :: border[i] == '='
  {
    Text.Repeat('=', 2 * |text| + 1)
  }

  /**
   * `" " + string.Join(' ', text.ToUpper().ToCharArray())`: a leading space, then the
   * upper-cased characters one space apart; an empty title gives the single space.
   */
  function TitleLine(text: string): (line: string)
    ensures |text| == 0 ==> line == " "
    ensures |text| > 0 ==> |line| == 2 * |text|
    ensures forall i | 0 <= i < |text| :: line[2 * i] == ' ' && line[2 * i + 1] == Text.ToUpperChar(text[i])
  {
    var parts := seq(|text|, i requires 0 <= i < |text| => [Text.ToUpperChar(text[i])]);
    if |text| > 0 then
      JoinSingles(parts);
      var joined := Text.Join(parts, " ");
      assert forall i | 0 <= i < |text| :: (" " + joined)[2 * i + 1] == joined[2 * i];
      assert forall i | 1 <= i < |text| :: (" " + joined)[2 * i] == joined[2 * (i - 1) + 1];
      " " + joined
    else
      " " + Text.Join(parts, " ")
  }

  /** The lines DisplayTitle writes, in the title's colour: none without a title. */
  function TitleLines(title: Option<ConsoleMessage>): (lines: seq<string>)
    ensures title.None? ==> lines == []
    ensures title.Some? ==> |lines| == 3 && lines[0] == lines[2]
                            && lines[0] == Border(title.value.text) && lines[1] == TitleLine(title.value.text)
  {
    match title
    case None => []
    case Some(message) => [Border(message.text), TitleLine(message.text), Border(message.text)]
  }

  /** Strings of one character joined by " " interleave those characters with spaces. */
  lemma {:induction false} JoinSingles(parts: seq<string>)
    requires |parts| >= 1 && forall i | 0 <= i < |parts| :: |parts[i]| == 1
    ensures |Text.Join(parts, " ")| == 2 * |parts| - 1
    ensures forall i | 0 <= i < |parts| :: Text.Join(parts, " ")[2 * i] == parts[i][0]
    ensures forall i | 0 <= i < |parts| - 1 :: Text.Join(parts, " ")[2 * i + 1] == ' '
  {
    if |parts| > 1 {
      JoinSingles(parts[1..]);
      var rest := Text.Join(parts[1..], " ");
      assert Text.Join(parts, " ") == parts[0] + " " + rest;
      forall i | 1 <= i < |parts| ensures Text.Join(parts, " ")[2 * i] == parts[i][0] {
        assert parts[1..][i - 1] == parts[i];
      }
      forall i | 1 <= i < |parts| - 1 ensures Text.Join(parts, " ")[2 * i + 1] == ' ' {
        assert Text.Join(parts, " ")[2 * i + 1] == rest[2 * (i - 1) + 1];
      }
    }
  }

  /** The lines EndApplication writes before waiting for a key. */
  const EndLines: seq<string> := ["", "Press any key to exit..."]

  /** Whether a menu call returns to its caller: it does after the exit or a command, not while awaiting input or after throwing. */
  predicate Returns(outcome: RunOutcome)
  {
    outcome.ExitChosen? || outcome.CommandRun?
  }

  /**
   * The menu calls RunAsync makes from input position `pos`: it calls again after
   * every run command and stops after the exit (or when a call never returns).
   */
  function RunUntilExit(commands: seq<UserCommand>, exit: ExitCommand, inputs: seq<Option<int>>, pos: nat): (runs: seq<RunOutcome>)
    requires pos <= |inputs|
    decreases |inputs| - pos
  {
    var (outcome, next) := MenuRun(commands, exit, inputs, pos);
    if outcome.CommandRun? then [outcome] + RunUntilExit(commands, exit, inputs, next) else [outcome]
  }

  /** Every call but the last ran a command; the last ended the loop. */
  lemma {:induction false} RunsEndWithLast(commands: seq<UserCommand>, exit: ExitCommand, inputs: seq<Option<int>>, pos: nat)
    requires pos <= |inputs|
    ensures var runs := RunUntilExit(commands, exit, inputs, pos);
            && 1 <= |runs| <= |inputs| - pos + 1
            && (forall i | 0 <= i < |runs| - 1 :: runs[i].CommandRun?)
            && !runs[|runs| - 1].CommandRun?
    decreases |inputs| - pos
  {
    var (outcome, next) := MenuRun(commands, exit, inputs, pos);
    if outcome.CommandRun? {
      RunsEndWithLast(commands, exit, inputs, next);
    }
  }

  /** Only choosing the exit entry makes RunAsync return normally; otherwise it keeps calling the menu. */
  lemma ReturnsOnlyAfterExit(commands: seq<UserCommand>, exit: ExitCommand, inputs: seq<Option<int>>, pos: nat)
    requires pos <= |inputs|
    ensures var runs := RunUntilExit(commands, exit, inputs, pos);
            runs[|runs| - 1].ExitChosen? ==> runs[|runs| - 1] == ExitChosen(exit)
  {
    RunsEndWithLast(commands, exit, inputs, pos);
    RunEndsWith(commands, exit, inputs, pos);
    var runs := RunUntilExit(commands, exit, inputs, pos);
    var p :| pos <= p <= |inputs| && runs[|runs| - 1] == MenuRun(commands, exit, inputs, p).0;
    if runs[|runs| - 1].ExitChosen? {
      MenuSelection.ExitOutcomeIsExitEntry(commands, exit, inputs, p);
    }
  }

  lemma {:induction false} RunEndsWith(commands: seq<UserCommand>, exit: ExitCommand, inputs: seq<Option<int>>, pos: nat)
    requires pos <= |inputs|
    ensures var runs := RunUntilExit(commands, exit, inputs, pos);
            exists p | pos <= p <= |inputs| :: runs[|runs| - 1] == MenuRun(commands, exit, inputs, p).0
    decreases |inputs| - pos
  {
    var (outcome, next) := MenuRun(commands, exit, inputs, pos);
    if outcome.CommandRun? {
      RunEndsWith(commands, exit, inputs, next);
      var runs := RunUntilExit(commands, exit, inputs, next);
      assert RunUntilExit(commands, exit, inputs, pos)[|RunUntilExit(commands, exit, inputs, pos)| - 1] == runs[|runs| - 1];
    } else {
      assert RunUntilExit(commands, exit, inputs, pos) == [MenuRun(commands, exit, inputs, pos).0];
    }
  }

  class ConsoleApplication {
    var title: Option<ConsoleMessage>
    const menu: ConsoleMenu

    constructor (menu: ConsoleMenu)
      ensures this.menu == menu && title == None
    {
      this.menu := menu;
      title := None;
    }

    /**
     * RunAsync: the title lines, then the menu called until it returns true, then the
     * closing lines if the last call returned.
     */
    method RunAsync(inputs: seq<Option<int>>) returns (shown: seq<string>, runs: seq<RunOutcome>)
      ensures runs == RunUntilExit(menu.commands, menu.ExitEntry(), inputs, 0)
      ensures shown == TitleLines(title) + (if runs[|runs| - 1].ExitChosen? then EndLines else [])
    {
      shown := TitleLines(title);
      runs := [];
      var pos := 0;
      while true
        invariant pos <= |inputs|
        invariant RunUntilExit(menu.commands, menu.ExitEntry(), inputs, 0) == runs + RunUntilExit(menu.commands, menu.ExitEntry(), inputs, pos)
        decreases |inputs| - pos
      {
        var exited, outcome, next := menu.RunAsync(inputs, pos);
        runs := runs + [outcome];
        if exited {
          shown := shown + EndLines;
          return;
        }
        if !outcome.CommandRun? {
          // a call that waits for input forever or throws never returns
          return;
        }
        pos := next;
      }
    }

    /** RunOnceAsync: the title lines, then exactly one menu call, then the closing lines if it returned. */
    method RunOnceAsync(inputs: seq<Option<int>>) returns (shown: seq<string>, run: RunOutcome)
      ensures run == MenuRun(menu.commands, menu.ExitEntry(), inputs, 0).0
      ensures shown == TitleLines(title) + (if Returns(run) then EndLines else [])
    {
      shown := TitleLines(title);
      var exited, next;
      exited, run, next := menu.RunAsync(inputs, 0);
      if Returns(run) {
        shown := shown + EndLines;
      }
    }
  }
}
