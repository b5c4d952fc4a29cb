/** What the menu's selection loop promises: what can be chosen, what is ignored, and how to exit. */
module MenuSelection {
  import opened Wrappers
  import opened ConsoleCommands
  import CommandNodes
  import opened Menu
  import MenuTree

  /** The command appears as a command entry somewhere in the tree. */
  ghost predicate InTree(lists: Lists, command: Command)
  {
    exists l, k | 0 <= l < |lists| && 0 <= k < |lists[l]| :: lists[l][k] == CommandEntry(CommandNodes.CommandNode(command))
  }

  /** A response the loop acts on: a number between 1 and the current list's Count. */
  predicate ValidChoice(list: seq<MenuNode>, response: Option<int>)
  {
    response.Some? && 1 <= response.value <= |list|
  }

  /** Whatever the loop ends on is a command entry of the tree. */
  lemma {:induction false} SelectedIsInTree(lists: Lists, current: ListId, inputs: seq<Option<int>>, pos: nat)
    requires Linked(lists) && current < |lists| && pos <= |inputs|
    requires Select(lists, current, inputs, pos).Selected?
    ensures InTree(lists, Select(lists, current, inputs, pos).command)
    decreases |inputs| - pos
  {
    if !ValidChoice(lists[current], inputs[pos]) {
      SelectedIsInTree(lists, current, inputs, pos + 1);
    } else {
      var selection := lists[current][inputs[pos].value - 1];
      if selection.SubmenuEntry? {
        SelectedIsInTree(lists, selection.children, inputs, pos + 1);
      } else {
        assert lists[current][inputs[pos].value - 1] == CommandEntry(CommandNodes.CommandNode(selection.node.command));
      }
    }
  }

  /** Responses that are not numbers, or not between 1 and Count, leave the current menu as it was. */
  lemma {:induction false} InvalidResponsesIgnored(lists: Lists, current: ListId, inputs: seq<Option<int>>, pos: nat, pos2: nat)
    requires Linked(lists) && current < |lists| && pos <= pos2 <= |inputs|
    requires forall p | pos <= p < pos2 :: !ValidChoice(lists[current], inputs[p])
    ensures Select(lists, current, inputs, pos) == Select(lists, current, inputs, pos2)
    decreases pos2 - pos
  {
    if pos < pos2 {
      InvalidResponsesIgnored(lists, current, inputs, pos + 1, pos2);
    }
  }

  /** Entering the number of the last root entry exits: RunAsync returns true after one response. */
  lemma ChoosingExitEntryExits(commands: seq<UserCommand>, exit: ExitCommand, inputs: seq<Option<int>>, pos: nat)
    requires BuildTree(commands, exit).Success? && pos < |inputs|
    requires inputs[pos] == Some(|BuildTree(commands, exit).value[0]|)
    ensures MenuRun(commands, exit, inputs, pos) == (ExitChosen(exit), pos + 1)
  {
  }

  /**
   * A run that ends on a user command chose one of the tree's command entries, and ran it
   * the way its kind asks: Execute for a synchronous command, ExecuteAsync for an
   * asynchronous one, and neither for a command implementing only the base interface.
   */
  lemma ChosenCommandDispatch(commands: seq<UserCommand>, exit: ExitCommand, inputs: seq<Option<int>>, pos: nat)
    requires pos <= |inputs| && MenuRun(commands, exit, inputs, pos).0.CommandRun?
    ensures var outcome := MenuRun(commands, exit, inputs, pos).0;
            && InTree(BuildTree(commands, exit).value, User(outcome.command))
            && (outcome.execution == Executed <==> outcome.command.kind == Synchronous)
            && (outcome.execution == ExecutedAsync <==> outcome.command.kind == Asynchronous)
            && (outcome.execution == NotExecuted <==> outcome.command.kind == BaseOnly)
  {
    SelectedIsInTree(BuildTree(commands, exit).value, 0, inputs, pos);
  }

  /** An exit outcome always carries the menu's own exit command: no other exit entry exists. */
  lemma ExitOutcomeIsExitEntry(commands: seq<UserCommand>, exit: ExitCommand, inputs: seq<Option<int>>, pos: nat)
    requires pos <= |inputs| && MenuRun(commands, exit, inputs, pos).0.ExitChosen?
    ensures MenuRun(commands, exit, inputs, pos).0 == ExitChosen(exit)
  {
    var t := BuildTree(commands, exit).value;
    var s := Select(t, 0, inputs, pos);
    SelectedIsInTree(t, 0, inputs, pos);
    MenuTree.TreeShape(commands, exit);
    var l, k :| 0 <= l < |t| && 0 <= k < |t[l]| && t[l][k] == CommandEntry(CommandNodes.CommandNode(s.command));
    assert l == 0 && k == |t[0]| - 1;
  }
}
