/**
 * ConsoleMenu: builds the menu tree from the command paths, then walks the user
 * through it until a command is chosen.
 *
 * The tree is a set of node lists addressed by id (a "list arena"): list 0 is the
 * root, and a submenu entry holds the id of its own Children list. Moving the
 * `current` list reference and adding to it in place is moving an id and appending
 * to the list with that id.
 */
module Menu {
  import opened Wrappers
  import Text
  import opened ConsoleCommands
  import CommandNodes

  type ListId = nat

  /** An entry of a menu list: a CommandNode, or a SubmenuNode whose children are list `children`. */
  datatype MenuNode = CommandEntry(node: CommandNodes.CommandNode) | SubmenuEntry(name: string, children: ListId)
  {
    function Name(): string
    {
      if CommandEntry? then node.Name() else name
    }
  }

  type Lists = seq<seq<MenuNode>>

  /** Every submenu points at an existing list created after the list that holds it. */
  predicate Linked(lists: Lists)
  {
    forall l, k | 0 <= l < |lists| && 0 <= k < |lists[l]| && lists[l][k].SubmenuEntry? ::
      l < lists[l][k].children < |lists|
  }

  /** `current.Add(node)` on the list with id `id`. */
  function AppendAt(lists: Lists, id: ListId, node: MenuNode): (r: Lists)
    requires Linked(lists) && id < |lists|
    requires node.SubmenuEntry? ==> id < node.children < |lists|
    ensures Linked(r) && |r| == |lists| && r[id] == lists[id] + [node]
    ensures forall l | 0 <= l < |lists| && l != id :: r[l] == lists[l]
  {
    lists[id := lists[id] + [node]]
  }

  /** A new, empty Children list. */
  function NewList(lists: Lists): (r: Lists)
    requires Linked(lists)
    ensures Linked(r) && r == lists + [[]]
  {
    lists + [[]]
  }

  /** `FirstOrDefault(n => n.Name == name)`: the index of the first entry with that name. */
  function Find(list: seq<MenuNode>, name: string): (r: Option<nat>)
    ensures r.Some? ==> r.value < |list| && list[r.value].Name() == name
    ensures r.Some? ==> forall j | 0 <= j < r.value :: list[j].Name() != name
    ensures r.None? <==> forall j | 0 <= j < |list| :: list[j].Name() != name
  {
    if |list| == 0 then None
    else if list[0].Name() == name then Some(0)
    else
      var r := Find(list[1..], name);
      if r.None? then None else Some(r.value + 1)
  }

  /** The InvalidCastException of `(SubmenuNode)node` when the same-named entry is a command. */
  datatype TreeError = InvalidCast

  /** `command.Path.Split('/')`. */
  function Tokens(command: UserCommand): (tokens: seq<string>)
    ensures |tokens| >= 1
  {
    Text.Split(command.path, '/')
  }

  /**
   * Placing one command: the path tokens before the last descend through submenus,
   * reusing the first entry of that name or adding a new submenu; the last token adds
   * the command entry to the list reached.
   */
  function Insert(lists: Lists, current: ListId, tokens: seq<string>, command: Command): (r: Result<Lists, TreeError>)
    requires Linked(lists) && current < |lists| && |tokens| >= 1
    ensures r.Success? ==> Linked(r.value) && |lists| <= |r.value|
    decreases |tokens|
  {
    if |tokens| == 1 then Success(AppendAt(lists, current, CommandEntry(CommandNodes.CommandNode(command))))
    else
      var found := Find(lists[current], tokens[0]);
      if found.None? then
        var id := |lists|;
        var grown := AppendAt(NewList(lists), current, SubmenuEntry(tokens[0], id));
        Insert(grown, id, tokens[1..], command)
      else if lists[current][found.value].CommandEntry? then Failure(InvalidCast)
      else Insert(lists, lists[current][found.value].children, tokens[1..], command)
  }

  /** The foreach over the commands, in order, starting from an empty root. */
  function InsertAll(commands: seq<UserCommand>): (r: Result<Lists, TreeError>)
    ensures r.Success? ==> Linked(r.value) && |r.value| >= 1
  {
    if |commands| == 0 then Success([[]])
    else
      var previous := InsertAll(commands[..|commands| - 1]);
      if previous.Failure? then previous
      else
        var last := commands[|commands| - 1];
        Insert(previous.value, 0, Tokens(last), User(last))
  }

  /** CreateMenuTree: every command placed, then the exit entry appended to the root. */
  function BuildTree(commands: seq<UserCommand>, exit: ExitCommand): (r: Result<Lists, TreeError>)
    ensures r.Success? ==> Linked(r.value) && |r.value| >= 1
    ensures r.Success? ==> |r.value[0]| >= 1 && r.value[0][|r.value[0]| - 1] == CommandEntry(CommandNodes.CommandNode(Exit(exit)))
    ensures r.Failure? <==> InsertAll(commands).Failure?
  {
    var built := InsertAll(commands);
    if built.Failure? then built
    else Success(AppendAt(built.value, 0, CommandEntry(CommandNodes.CommandNode(Exit(exit)))))
  }

  /** The menu loop's choice: a command and the position after the last input read, or no more input. */
  datatype Selection = Selected(command: Command, next: nat) | Exhausted

  /**
   * The selection loop from list `current`, reading `inputs` from `pos` (None is a
   * response that is not an integer): a number outside 1..Count or a non-number is
   * ignored, a submenu replaces the current list, a command ends the loop.
   */
  function Select(lists: Lists, current: ListId, inputs: seq<Option<int>>, pos: nat): (s: Selection)
    requires Linked(lists) && current < |lists| && pos <= |inputs|
    ensures s.Selected? ==> pos < s.next <= |inputs|
    decreases |inputs| - pos
  {
    if pos == |inputs| then Exhausted
    else if inputs[pos].None? || inputs[pos].value < 1 || inputs[pos].value > |lists[current]| then
      Select(lists, current, inputs, pos + 1)
    else
      var selection := lists[current][inputs[pos].value - 1];
      if selection.SubmenuEntry? then Select(lists, selection.children, inputs, pos + 1)
      else Selected(selection.node.command, pos + 1)
  }

  /**
   * What one RunAsync call ends in: the exit command (true), a user command run
   * (false), waiting for input that never comes, or the tree's InvalidCastException.
   */
  datatype RunOutcome = ExitChosen(exit: ExitCommand) | CommandRun(command: UserCommand, execution: Execution) | AwaitingInput | TreeFailed(error: TreeError)

  /** How a chosen user command is run: Execute, ExecuteAsync, or neither. */
  datatype Execution = Executed | ExecutedAsync | NotExecuted

  /**
   * The switch on the chosen command: an IConsoleCommand is executed, an IAsyncConsoleCommand
   * is awaited, and a command implementing neither is chosen without being run.
   */
  function ExecutionOf(command: UserCommand): (e: Execution)
    ensures e == Executed <==> command.kind == Synchronous
    ensures e == ExecutedAsync <==> command.kind == Asynchronous
    ensures e == NotExecuted <==> command.kind == BaseOnly
  {
    match command.kind
    case Synchronous => Executed
    case Asynchronous => ExecutedAsync
    case BaseOnly => NotExecuted
  }

  /** One RunAsync call from input position `pos`: its outcome and the next unread position. */
  function MenuRun(commands: seq<UserCommand>, exit: ExitCommand, inputs: seq<Option<int>>, pos: nat): (r: (RunOutcome, nat))
    requires pos <= |inputs|
    ensures pos <= r.1 <= |inputs|
    ensures r.0.ExitChosen? || r.0.CommandRun? ==> pos < r.1
    ensures r.0.CommandRun? ==> r.0.execution == ExecutionOf(r.0.command)
  {
    var tree := BuildTree(commands, exit);
    if tree.Failure? then (TreeFailed(tree.error), pos)
    else match Select(tree.value, 0, inputs, pos)
      case Exhausted => (AwaitingInput, |inputs|)
      case Selected(command, next) =>
        if command.Exit? then (ExitChosen(command.exit), next) else (CommandRun(command.user, ExecutionOf(command.user)), next)
  }

  class ConsoleMenu {
    /** The commands GetAllCommands instantiates, in discovery order. */
    const commands: seq<UserCommand>
    var customExitCommand: Option<ExitCommand>

    constructor (commands: seq<UserCommand>)
      ensures this.commands == commands && customExitCommand == None
    {
      this.commands := commands;
      customExitCommand := None;
    }

    /** `CustomExitCommand ?? new ExitCommand(null, null, null)`. */
    function ExitEntry(): (e: ExitCommand)
      reads this
      ensures customExitCommand.Some? ==> e == customExitCommand.value
      ensures customExitCommand.None? ==> e.Path() == "Exit" && e.Description() == "Closes the application."
    {
      customExitCommand.GetOr(DefaultExit)
    }

    method CreateMenuTree() returns (r: Result<Lists, TreeError>)
      ensures r == BuildTree(commands, ExitEntry())
    {
      var root: Lists := [[]];
      for j := 0 to |commands|
        invariant InsertAll(commands[..j]) == Success(root)
      {
        assert commands[..j + 1][..j] == commands[..j];
        var placed := PlaceCommand(root, commands[j]);
        if placed.Failure? {
          InsertAllKeepsFailure(commands, j + 1);
          return Failure(placed.error);
        }
        root := placed.value;
      }
      assert commands[..|commands|] == commands;
      root := AppendAt(root, 0, CommandEntry(CommandNodes.CommandNode(Exit(ExitEntry()))));
      return Success(root);
    }

    /** The selection loop; returns true exactly when the exit command was chosen. */
    method RunAsync(inputs: seq<Option<int>>, pos: nat) returns (exited: bool, outcome: RunOutcome, next: nat)
      requires pos <= |inputs|
      ensures (outcome, next) == MenuRun(commands, ExitEntry(), inputs, pos)
      ensures exited <==> outcome.ExitChosen?
    {
      var tree := CreateMenuTree();
      if tree.Failure? {
        return false, TreeFailed(tree.error), pos;
      }
      var lists := tree.value;
      var current: ListId := 0;
      var selected: Option<Command> := None;
      next := pos;
      while selected.None?
        invariant Linked(lists) && current < |lists| && pos <= next <= |inputs|
        invariant selected.None? ==> Select(lists, 0, inputs, pos) == Select(lists, current, inputs, next)
        invariant selected.Some? ==> Select(lists, 0, inputs, pos) == Selected(selected.value, next)
        decreases |inputs| - next
      {
        if next == |inputs| {
          return false, AwaitingInput, |inputs|;
        }
        var response := inputs[next];
        next := next + 1;
        if response.Some? && 1 <= response.value <= |lists[current]| {
          var selection := lists[current][response.value - 1];
          if selection.SubmenuEntry? {
            assert Select(lists, current, inputs, next - 1) == Select(lists, selection.children, inputs, next);
            current := selection.children;
          } else {
            assert Select(lists, current, inputs, next - 1) == Selected(selection.node.command, next);
            selected := Some(selection.node.command);
          }
        } else {
          assert Select(lists, current, inputs, next - 1) == Select(lists, current, inputs, next);
        }
      }
      match selected.value
      case Exit(e) =>
        return true, ExitChosen(e), next;
      case User(u) =>
        var execution: Execution;
        match u.kind {
          case Synchronous => execution := Executed;
          case Asynchronous => execution := ExecutedAsync;
          case BaseOnly => execution := NotExecuted;
        }
        return false, CommandRun(u, execution), next;
    }
  }

  /** The body of CreateMenuTree's foreach: the path tokens walked with a moving `current` list. */
  method PlaceCommand(lists: Lists, command: UserCommand) returns (r: Result<Lists, TreeError>)
    requires Linked(lists) && |lists| >= 1
    ensures r == Insert(lists, 0, Tokens(command), User(command))
  {
    var root := lists;
    var current: ListId := 0;
    var tokens := Text.Split(command.path, '/');
    for i := 0 to |tokens| - 1
      invariant Linked(root) && current < |root|
      invariant Insert(lists, 0, tokens, User(command)) == Insert(root, current, tokens[i..], User(command))
    {
      assert tokens[i..][1..] == tokens[i + 1..];
      var node := Find(root[current], tokens[i]);
      if node.None? {
        var id := |root|;
        root := AppendAt(NewList(root), current, SubmenuEntry(tokens[i], id));
        current := id;
      } else if root[current][node.value].CommandEntry? {
        return Failure(InvalidCast);
      } else {
        current := root[current][node.value].children;
      }
    }
    assert tokens[|tokens| - 1..] == [tokens[|tokens| - 1]];
    root := AppendAt(root, current, CommandEntry(CommandNodes.CommandNode(User(command))));
    return Success(root);
  }

  /** Once a prefix of the commands fails, the whole build fails with that error. */
  lemma {:induction false} InsertAllKeepsFailure(commands: seq<UserCommand>, m: nat)
    requires m <= |commands| && InsertAll(commands[..m]).Failure?
    ensures InsertAll(commands) == InsertAll(commands[..m])
    decreases |commands| - m
  {
    if m < |commands| {
      var longer := commands[..m + 1];
      assert longer[..m] == commands[..m];
      InsertAllKeepsFailure(commands, m + 1);
    } else {
      assert commands[..m] == commands;
    }
  }
}
