/**
 * What CreateMenuTree promises about the tree it builds: where each command ends
 * up, when building fails, how many command entries there are, and the shape of
 * the lists.
 */
module MenuTree {
  import opened Wrappers
  import opened ConsoleCommands
  import CommandNodes
  import opened Menu

  /** Every list of `a` is a prefix of the list with the same id in `b`: nothing removed, nothing reordered. */
  ghost predicate Extends(a: Lists, b: Lists)
  {
    |a| <= |b| && forall l | 0 <= l < |a| :: a[l] <= b[l]
  }

  lemma ExtendsTransitive(a: Lists, b: Lists, c: Lists)
    requires Extends(a, b) && Extends(b, c)
    ensures Extends(a, c)
  {
    forall l | 0 <= l < |a| ensures a[l] <= c[l] {
      assert a[l] <= b[l] && b[l] <= c[l];
    }
  }

  /** Following submenus by name from list `current`. */
  datatype Walked = Reached(id: ListId) | Missing | Blocked

  /**
   * The walk CreateMenuTree makes for the tokens before the last: the first entry
   * with each name must be a submenu (Blocked if it is a command, Missing if there
   * is none).
   */
  function Walk(lists: Lists, current: ListId, names: seq<string>): (w: Walked)
    requires Linked(lists) && current < |lists|
    ensures w.Reached? ==> w.id < |lists|
    decreases |names|
  {
    if |names| == 0 then Reached(current)
    else
      var found := Find(lists[current], names[0]);
      if found.None? then Missing
      else if lists[current][found.value].CommandEntry? then Blocked
      else Walk(lists, lists[current][found.value].children, names[1..])
  }

  function Init(tokens: seq<string>): seq<string>
    requires |tokens| >= 1
  {
    tokens[..|tokens| - 1]
  }

  /** Appending entries never changes which entry is found first. */
  lemma {:induction false} FindStable(a: seq<MenuNode>, b: seq<MenuNode>, name: string)
    requires a <= b && Find(a, name).Some?
    ensures Find(b, name) == Find(a, name)
  {
    if a[0].Name() != name {
      assert a[1..] <= b[1..];
      FindStable(a[1..], b[1..], name);
    }
  }

  lemma {:induction false} FindAppended(a: seq<MenuNode>, x: MenuNode)
    requires Find(a, x.Name()).None?
    ensures Find(a + [x], x.Name()) == Some(|a|)
  {
    if |a| > 0 {
      assert a[0].Name() != x.Name();
      assert (a + [x])[1..] == a[1..] + [x];
      FindAppended(a[1..], x);
    }
  }

  /** A walk that got somewhere (or got blocked) is unaffected by later additions. */
  lemma {:induction false} WalkStable(a: Lists, b: Lists, current: ListId, names: seq<string>)
    requires Linked(a) && Linked(b) && Extends(a, b) && current < |a|
    requires !Walk(a, current, names).Missing?
    ensures Walk(b, current, names) == Walk(a, current, names)
    decreases |names|
  {
    if |names| > 0 {
      FindStable(a[current], b[current], names[0]);
      var k := Find(a[current], names[0]).value;
      assert b[current][k] == a[current][k];
      if a[current][k].SubmenuEntry? {
        WalkStable(a, b, a[current][k].children, names[1..]);
      }
    }
  }

  lemma AppendAtExtends(lists: Lists, id: ListId, node: MenuNode)
    requires Linked(lists) && id < |lists|
    requires node.SubmenuEntry? ==> id < node.children < |lists|
    ensures Extends(lists, AppendAt(lists, id, node))
  {
  }

  /** Placing a command only appends. */
  lemma {:induction false} InsertExtends(lists: Lists, current: ListId, tokens: seq<string>, command: Command)
    requires Linked(lists) && current < |lists| && |tokens| >= 1
    requires Insert(lists, current, tokens, command).Success?
    ensures Extends(lists, Insert(lists, current, tokens, command).value)
    decreases |tokens|
  {
    var r := Insert(lists, current, tokens, command).value;
    if |tokens| > 1 {
      var found := Find(lists[current], tokens[0]);
      if found.None? {
        var id := |lists|;
        var grown := AppendAt(NewList(lists), current, SubmenuEntry(tokens[0], id));
        InsertExtends(grown, id, tokens[1..], command);
        assert Extends(lists, grown);
        ExtendsTransitive(lists, grown, r);
      } else {
        InsertExtends(lists, lists[current][found.value].children, tokens[1..], command);
      }
    }
  }

  /** Placing a command below an empty list always succeeds: everything below it is new. */
  lemma {:induction false} InsertIntoEmpty(lists: Lists, current: ListId, tokens: seq<string>, command: Command)
    requires Linked(lists) && current < |lists| && |tokens| >= 1 && lists[current] == []
    ensures Insert(lists, current, tokens, command).Success?
    decreases |tokens|
  {
    if |tokens| > 1 {
      var id := |lists|;
      var grown := AppendAt(NewList(lists), current, SubmenuEntry(tokens[0], id));
      InsertIntoEmpty(grown, id, tokens[1..], command);
    }
  }

  /**
   * Placing a command fails (the invalid cast) exactly when the walk along the tokens
   * before the last meets a command entry where it looks for a submenu.
   */
  lemma {:induction false} InsertFailsIffBlocked(lists: Lists, current: ListId, tokens: seq<string>, command: Command)
    requires Linked(lists) && current < |lists| && |tokens| >= 1
    ensures Insert(lists, current, tokens, command).Failure? <==> Walk(lists, current, Init(tokens)).Blocked?
    decreases |tokens|
  {
    if |tokens| > 1 {
      var found := Find(lists[current], tokens[0]);
      assert Init(tokens)[0] == tokens[0] && Init(tokens)[1..] == Init(tokens[1..]);
      if found.None? {
        var id := |lists|;
        var grown := AppendAt(NewList(lists), current, SubmenuEntry(tokens[0], id));
        InsertIntoEmpty(grown, id, tokens[1..], command);
      } else if lists[current][found.value].SubmenuEntry? {
        InsertFailsIffBlocked(lists, lists[current][found.value].children, tokens[1..], command);
      }
    }
  }

  /**
   * A placed command is the last entry of the list reached by walking the submenus
   * named by the tokens before the last.
   */
  lemma {:induction false} InsertPlaces(lists: Lists, current: ListId, tokens: seq<string>, command: Command)
    requires Linked(lists) && current < |lists| && |tokens| >= 1
    requires Insert(lists, current, tokens, command).Success?
    ensures Placed(Insert(lists, current, tokens, command).value, current, tokens, command)
    decreases |tokens|
  {
    var r := Insert(lists, current, tokens, command).value;
    if |tokens| > 1 {
      var found := Find(lists[current], tokens[0]);
      if found.None? {
        var id := |lists|;
        var grown := AppendAt(NewList(lists), current, SubmenuEntry(tokens[0], id));
        assert r == Insert(grown, id, tokens[1..], command).value;
        InsertPlaces(grown, id, tokens[1..], command);
        InsertExtends(grown, id, tokens[1..], command);
        FindAppended(lists[current], SubmenuEntry(tokens[0], id));
        FindStable(grown[current], r[current], tokens[0]);
        PlacedStep(r, current, tokens, command, |lists[current]|);
      } else {
        var child := lists[current][found.value].children;
        assert r == Insert(lists, child, tokens[1..], command).value;
        InsertPlaces(lists, child, tokens[1..], command);
        InsertExtends(lists, child, tokens[1..], command);
        FindStable(lists[current], r[current], tokens[0]);
        PlacedStep(r, current, tokens, command, found.value);
      }
    }
  }

  /** `command` is the last entry of the list reached by the walk along the tokens before the last. */
  ghost predicate Placed(r: Lists, current: ListId, tokens: seq<string>, command: Command)
    requires Linked(r) && current < |r| && |tokens| >= 1
  {
    var w := Walk(r, current, Init(tokens));
    && w.Reached?
    && |r[w.id]| >= 1 && r[w.id][|r[w.id]| - 1] == CommandEntry(CommandNodes.CommandNode(command))
  }

  lemma PlacedStep(r: Lists, current: ListId, tokens: seq<string>, command: Command, k: nat)
    requires Linked(r) && current < |r| && |tokens| > 1
    requires Find(r[current], tokens[0]) == Some(k) && r[current][k].SubmenuEntry?
    requires Placed(r, r[current][k].children, tokens[1..], command)
    ensures Placed(r, current, tokens, command)
  {
    var names := Init(tokens);
    assert names[0] == tokens[0] && names[1..] == Init(tokens[1..]);
    assert Walk(r, current, names) == Walk(r, r[current][k].children, Init(tokens[1..]));
  }

  /** Every prefix of a successful build succeeds, and the later commands only extend it. */
  lemma {:induction false} InsertAllPrefix(commands: seq<UserCommand>, m: nat)
    requires m <= |commands| && InsertAll(commands).Success?
    ensures InsertAll(commands[..m]).Success?
    ensures Extends(InsertAll(commands[..m]).value, InsertAll(commands).value)
    decreases |commands| - m
  {
    if InsertAll(commands[..m]).Failure? {
      InsertAllKeepsFailure(commands, m);
    } else if m == |commands| {
      assert commands[..m] == commands;
    } else {
      InsertAllPrefix(commands, m + 1);
      var shorter := commands[..m + 1];
      assert shorter[..m] == commands[..m];
      var last := commands[m];
      InsertExtends(InsertAll(commands[..m]).value, 0, Tokens(last), User(last));
      ExtendsTransitive(InsertAll(commands[..m]).value, InsertAll(commands[..m + 1]).value, InsertAll(commands).value);
    }
  }

  /** Right after command j is inserted, its entry ends the list its submenu path reaches. */
  lemma PlacedWhenInserted(commands: seq<UserCommand>, j: nat)
    requires j < |commands| && InsertAll(commands).Success?
    ensures InsertAll(commands[..j + 1]).Success?
    ensures Placed(InsertAll(commands[..j + 1]).value, 0, Tokens(commands[j]), User(commands[j]))
  {
    InsertAllPrefix(commands, j + 1);
    InsertAllPrefix(commands, j);
    var before := InsertAll(commands[..j]).value;
    var shorter := commands[..j + 1];
    assert shorter[..j] == commands[..j];
    assert shorter[j] == commands[j];
    InsertPlaces(before, 0, Tokens(commands[j]), User(commands[j]));
  }

  /** The finished tree extends the tree built from any prefix of the commands. */
  lemma TreeExtendsPrefix(commands: seq<UserCommand>, exit: ExitCommand, m: nat)
    requires m <= |commands| && BuildTree(commands, exit).Success?
    ensures InsertAll(commands[..m]).Success?
    ensures Extends(InsertAll(commands[..m]).value, BuildTree(commands, exit).value)
  {
    InsertAllPrefix(commands, m);
    var built := InsertAll(commands).value;
    AppendAtExtends(built, 0, CommandEntry(CommandNodes.CommandNode(Exit(exit))));
    ExtendsTransitive(InsertAll(commands[..m]).value, built, BuildTree(commands, exit).value);
  }

  /**
   * In the finished tree, a command with path t1/…/tk is a command entry named tk in
   * the list reached through submenus named t1 … t(k−1).
   */
  lemma CommandReachable(commands: seq<UserCommand>, exit: ExitCommand, j: nat, tree: Lists)
    requires j < |commands| && BuildTree(commands, exit) == Success(tree)
    ensures Linked(tree) && |tree| >= 1
    ensures var tokens := Tokens(commands[j]);
            var w := Walk(tree, 0, Init(tokens));
            && w.Reached?
            && CommandEntry(CommandNodes.CommandNode(User(commands[j]))) in tree[w.id]
            && CommandNodes.CommandNode(User(commands[j])).Name() == tokens[|tokens| - 1]
  {
    var a := PlacedInPrefix(commands, exit, j, tree);
    EntryStaysReachable(a, tree, Tokens(commands[j]), User(commands[j]));
    NodeNamedByLastToken(commands[j]);
  }

  /** The tree built from the commands up to j: command j is placed in it, and the finished tree extends it. */
  lemma PlacedInPrefix(commands: seq<UserCommand>, exit: ExitCommand, j: nat, tree: Lists) returns (a: Lists)
    requires j < |commands| && BuildTree(commands, exit) == Success(tree)
    ensures Linked(a) && Linked(tree) && Extends(a, tree) && |a| >= 1
    ensures Placed(a, 0, Tokens(commands[j]), User(commands[j]))
  {
    PlacedWhenInserted(commands, j);
    TreeExtendsPrefix(commands, exit, j + 1);
    a := InsertAll(commands[..j + 1]).value;
  }

  /** A command placed in a tree is still in the list its walk reaches in any extension of that tree. */
  lemma EntryStaysReachable(a: Lists, b: Lists, tokens: seq<string>, command: Command)
    requires Linked(a) && Linked(b) && Extends(a, b) && |a| >= 1 && |tokens| >= 1
    requires Placed(a, 0, tokens, command)
    ensures Walk(b, 0, Init(tokens)).Reached?
    ensures CommandEntry(CommandNodes.CommandNode(command)) in b[Walk(b, 0, Init(tokens)).id]
  {
    WalkStable(a, b, 0, Init(tokens));
    var id := Walk(a, 0, Init(tokens)).id;
    assert a[id] <= b[id];
    assert b[id][|a[id]| - 1] == CommandEntry(CommandNodes.CommandNode(command));
  }

  /** A command's node is named by the last token of its path. */
  lemma NodeNamedByLastToken(command: UserCommand)
    ensures CommandNodes.CommandNode(User(command)).Name() == Tokens(command)[|Tokens(command)| - 1]
  {
  }

  /** Command j is the first whose walk meets a command entry where a submenu is needed. */
  ghost predicate BlockedAt(commands: seq<UserCommand>, j: nat)
    requires j < |commands|
  {
    && InsertAll(commands[..j]).Success?
    && Walk(InsertAll(commands[..j]).value, 0, Init(Tokens(commands[j]))).Blocked?
  }

  /** The build fails exactly when some command's walk is blocked by an earlier command entry. */
  lemma BuildFailsIffBlocked(commands: seq<UserCommand>, exit: ExitCommand)
    ensures BuildTree(commands, exit).Failure? <==> exists j | 0 <= j < |commands| :: BlockedAt(commands, j)
  {
    InsertAllFailsIffBlocked(commands);
  }

  lemma InsertAllFailsIffBlocked(commands: seq<UserCommand>)
    ensures InsertAll(commands).Failure? <==> exists j | 0 <= j < |commands| :: BlockedAt(commands, j)
  {
    if InsertAll(commands).Failure? {
      var j := FirstBlocked(commands);
    }
    if exists j | 0 <= j < |commands| :: BlockedAt(commands, j) {
      var j :| 0 <= j < |commands| && BlockedAt(commands, j);
      BlockedFails(commands, j);
    }
  }

  /** A blocked command makes the whole build fail. */
  lemma BlockedFails(commands: seq<UserCommand>, j: nat)
    requires j < |commands| && BlockedAt(commands, j)
    ensures InsertAll(commands).Failure?
  {
    var previous := InsertAll(commands[..j]).value;
    var tokens := Tokens(commands[j]);
    InsertFailsIffBlocked(previous, 0, tokens, User(commands[j]));
    var longer := commands[..j + 1];
    assert longer[..j] == commands[..j] && longer[j] == commands[j];
    assert InsertAll(longer).Failure?;
    InsertAllKeepsFailure(commands, j + 1);
  }

  /** A failed build has a command whose walk was blocked. */
  lemma {:induction false} FirstBlocked(commands: seq<UserCommand>) returns (j: nat)
    requires InsertAll(commands).Failure?
    ensures j < |commands| && BlockedAt(commands, j)
  {
    var n := |commands| - 1;
    var shorter := commands[..n];
    var previous := InsertAll(shorter);
    if previous.Failure? {
      j := FirstBlocked(shorter);
      assert shorter[..j] == commands[..j] && shorter[j] == commands[j];
    } else {
      j := n;
      InsertFailsIffBlocked(previous.value, 0, Tokens(commands[n]), User(commands[n]));
    }
  }

  // ---- Command entries ----

  function CountIn(list: seq<MenuNode>): nat
  {
    if |list| == 0 then 0
    else CountIn(list[..|list| - 1]) + (if list[|list| - 1].CommandEntry? then 1 else 0)
  }

  /** The number of command entries in all lists. */
  function CountAll(lists: Lists): nat
  {
    if |lists| == 0 then 0 else CountAll(lists[..|lists| - 1]) + CountIn(lists[|lists| - 1])
  }

  lemma {:induction false} CountAppendAt(lists: Lists, id: ListId, node: MenuNode)
    requires id < |lists|
    ensures CountAll(lists[id := lists[id] + [node]]) == CountAll(lists) + (if node.CommandEntry? then 1 else 0)
  {
    var updated := lists[id := lists[id] + [node]];
    var n := |lists| - 1;
    assert (lists[id] + [node])[..|lists[id]|] == lists[id];
    if id < n {
      assert updated[..n] == lists[..n][id := lists[id] + [node]];
      CountAppendAt(lists[..n], id, node);
    } else {
      assert updated[..n] == lists[..n];
    }
  }

  /** Placing a command adds exactly one command entry. */
  lemma {:induction false} InsertCount(lists: Lists, current: ListId, tokens: seq<string>, command: Command)
    requires Linked(lists) && current < |lists| && |tokens| >= 1
    requires Insert(lists, current, tokens, command).Success?
    ensures CountAll(Insert(lists, current, tokens, command).value) == CountAll(lists) + 1
    decreases |tokens|
  {
    if |tokens| == 1 {
      CountAppendAt(lists, current, CommandEntry(CommandNodes.CommandNode(command)));
    } else {
      var found := Find(lists[current], tokens[0]);
      if found.None? {
        var id := |lists|;
        var extended := NewList(lists);
        assert extended[..|lists|] == lists;
        assert CountAll(extended) == CountAll(lists);
        CountAppendAt(extended, current, SubmenuEntry(tokens[0], id));
        InsertCount(AppendAt(extended, current, SubmenuEntry(tokens[0], id)), id, tokens[1..], command);
      } else {
        InsertCount(lists, lists[current][found.value].children, tokens[1..], command);
      }
    }
  }

  lemma {:induction false} InsertAllCount(commands: seq<UserCommand>)
    requires InsertAll(commands).Success?
    ensures CountAll(InsertAll(commands).value) == |commands|
  {
    if |commands| > 0 {
      var n := |commands| - 1;
      InsertAllPrefix(commands, n);
      InsertAllCount(commands[..n]);
      InsertCount(InsertAll(commands[..n]).value, 0, Tokens(commands[n]), User(commands[n]));
    } else {
      assert CountAll([[]]) == CountAll([]) + CountIn([]);
    }
  }

  /** The tree holds one command entry per command plus the exit entry. */
  lemma TreeCommandCount(commands: seq<UserCommand>, exit: ExitCommand)
    requires BuildTree(commands, exit).Success?
    ensures CountAll(BuildTree(commands, exit).value) == |commands| + 1
  {
    InsertAllCount(commands);
    CountAppendAt(InsertAll(commands).value, 0, CommandEntry(CommandNodes.CommandNode(Exit(exit))));
  }

  // ---- Shape ----

  /** Every submenu except those pointing at list `except` has at least one child. */
  ghost predicate NonEmptyExcept(lists: Lists, except: int)
    requires Linked(lists)
  {
    forall l, k | 0 <= l < |lists| && 0 <= k < |lists[l]| && lists[l][k].SubmenuEntry? && lists[l][k].children != except ::
      |lists[lists[l][k].children]| > 0
  }

  lemma {:induction false} InsertKeepsNonEmpty(lists: Lists, current: ListId, tokens: seq<string>, command: Command)
    requires Linked(lists) && current < |lists| && |tokens| >= 1
    requires NonEmptyExcept(lists, current)
    requires Insert(lists, current, tokens, command).Success?
    ensures NonEmptyExcept(Insert(lists, current, tokens, command).value, -1)
    decreases |tokens|
  {
    if |tokens| > 1 {
      var found := Find(lists[current], tokens[0]);
      if found.None? {
        var id := |lists|;
        var grown := AppendAt(NewList(lists), current, SubmenuEntry(tokens[0], id));
        assert NonEmptyExcept(grown, id);
        InsertKeepsNonEmpty(grown, id, tokens[1..], command);
      } else {
        InsertKeepsNonEmpty(lists, lists[current][found.value].children, tokens[1..], command);
      }
    }
  }

  lemma {:induction false} InsertAllNonEmpty(commands: seq<UserCommand>)
    requires InsertAll(commands).Success?
    ensures NonEmptyExcept(InsertAll(commands).value, -1)
  {
    if |commands| > 0 {
      var n := |commands| - 1;
      InsertAllPrefix(commands, n);
      InsertAllNonEmpty(commands[..n]);
      InsertKeepsNonEmpty(InsertAll(commands[..n]).value, 0, Tokens(commands[n]), User(commands[n]));
    }
  }

  /** Every submenu in the finished tree has at least one child. */
  lemma SubmenusNonEmpty(commands: seq<UserCommand>, exit: ExitCommand)
    requires BuildTree(commands, exit).Success?
    ensures NonEmptyExcept(BuildTree(commands, exit).value, -1)
  {
    InsertAllNonEmpty(commands);
  }

  /** Each submenu is the first entry with its name in its list, so it is the one later paths reuse. */
  ghost predicate SubmenusFirstByName(lists: Lists)
  {
    forall l, k | 0 <= l < |lists| && 0 <= k < |lists[l]| && lists[l][k].SubmenuEntry? ::
      Find(lists[l], lists[l][k].name) == Some(k)
  }

  /** Entry k of list l is a submenu whose children are list `id`. */
  ghost predicate Owner(lists: Lists, l: int, k: int, id: ListId)
  {
    0 <= l < |lists| && 0 <= k < |lists[l]| && lists[l][k].SubmenuEntry? && lists[l][k].children == id
  }

  ghost predicate IsOwned(lists: Lists, id: ListId)
  {
    exists l, k :: Owner(lists, l, k, id)
  }

  /** Every list but the root belongs to exactly one submenu: together with Linked, a tree rooted at list 0. */
  ghost predicate OwnedOnce(lists: Lists)
  {
    && (forall id | 0 < id < |lists| :: IsOwned(lists, id))
    && (forall l1, k1, l2, k2, id | Owner(lists, l1, k1, id) && Owner(lists, l2, k2, id) :: l1 == l2 && k1 == k2)
  }

  /** Every command entry holds a user command. */
  ghost predicate UserEntriesOnly(lists: Lists)
  {
    forall l, k | 0 <= l < |lists| && 0 <= k < |lists[l]| && lists[l][k].CommandEntry? :: lists[l][k].node.command.User?
  }

  ghost predicate Shape(lists: Lists)
  {
    Linked(lists) && SubmenusFirstByName(lists) && OwnedOnce(lists) && UserEntriesOnly(lists)
  }

  lemma AppendCommandKeepsShape(lists: Lists, id: ListId, user: UserCommand)
    requires Shape(lists) && id < |lists|
    ensures Shape(AppendAt(lists, id, CommandEntry(CommandNodes.CommandNode(User(user)))))
  {
    var node := CommandEntry(CommandNodes.CommandNode(User(user)));
    var r: Lists := AppendAt(lists, id, node);
    forall l: nat, k: nat | 0 <= l < |r| && 0 <= k < |r[l]| && r[l][k].SubmenuEntry?
      ensures Find(r[l], r[l][k].name) == Some(k)
    {
      if l == id {
        assert k < |lists[id]| && r[l][k] == lists[l][k];
        FindStable(lists[l], r[l], r[l][k].name);
      }
    }
    forall l, k, owned: ListId | Owner(r, l, k, owned) ensures Owner(lists, l, k, owned) {
      if l == id { assert k < |lists[id]|; }
    }
    forall owned: ListId | 0 < owned < |r| ensures IsOwned(r, owned) {
      assert IsOwned(lists, owned);
      var l, k :| Owner(lists, l, k, owned);
      assert Owner(r, l, k, owned);
    }
  }

  lemma AppendSubmenuKeepsShape(lists: Lists, current: ListId, name: string)
    requires Shape(lists) && current < |lists| && Find(lists[current], name).None?
    ensures Shape(AppendAt(NewList(lists), current, SubmenuEntry(name, |lists|)))
  {
    var node := SubmenuEntry(name, |lists|);
    var extended := NewList(lists);
    var r: Lists := AppendAt(extended, current, node);
    forall l: nat, k: nat | 0 <= l < |r| && 0 <= k < |r[l]| && r[l][k].SubmenuEntry?
      ensures Find(r[l], r[l][k].name) == Some(k)
    {
      if l == current {
        if k == |lists[current]| {
          FindAppended(lists[current], node);
        } else {
          assert r[l][k] == lists[l][k];
          FindStable(lists[l], r[l], r[l][k].name);
        }
      } else {
        assert r[l] == lists[l];
      }
    }
    forall l, k, owned: ListId | Owner(r, l, k, owned)
      ensures Owner(lists, l, k, owned) || (l == current && k == |lists[current]| && owned == |lists|)
    {
      if l == current && k < |lists[current]| {
        assert r[l][k] == lists[l][k];
      } else if l != current {
        assert r[l] == lists[l];
      }
    }
    forall owned: ListId | 0 < owned < |r| ensures IsOwned(r, owned) {
      if owned == |lists| {
        assert Owner(r, current, |lists[current]|, owned);
      } else {
        assert IsOwned(lists, owned);
        var l, k :| Owner(lists, l, k, owned);
        assert r[l][k] == lists[l][k];
        assert Owner(r, l, k, owned);
      }
    }
    forall l: nat, k: nat | 0 <= l < |r| && 0 <= k < |r[l]| && r[l][k].CommandEntry? ensures r[l][k].node.command.User? {
      if l < |lists| && k < |lists[l]| {
        assert r[l][k] == lists[l][k];
      }
    }
  }

  lemma {:induction false} InsertKeepsShape(lists: Lists, current: ListId, tokens: seq<string>, user: UserCommand)
    requires Shape(lists) && current < |lists| && |tokens| >= 1
    requires Insert(lists, current, tokens, User(user)).Success?
    ensures Shape(Insert(lists, current, tokens, User(user)).value)
    decreases |tokens|
  {
    if |tokens| == 1 {
      AppendCommandKeepsShape(lists, current, user);
    } else {
      var found := Find(lists[current], tokens[0]);
      if found.None? {
        AppendSubmenuKeepsShape(lists, current, tokens[0]);
        InsertKeepsShape(AppendAt(NewList(lists), current, SubmenuEntry(tokens[0], |lists|)), |lists|, tokens[1..], user);
      } else {
        InsertKeepsShape(lists, lists[current][found.value].children, tokens[1..], user);
      }
    }
  }

  lemma {:induction false} InsertAllShape(commands: seq<UserCommand>)
    requires InsertAll(commands).Success?
    ensures Shape(InsertAll(commands).value)
  {
    if |commands| > 0 {
      var n := |commands| - 1;
      InsertAllPrefix(commands, n);
      InsertAllShape(commands[..n]);
      InsertKeepsShape(InsertAll(commands[..n]).value, 0, Tokens(commands[n]), commands[n]);
    } else {
      var empty: Lists := [[]];
      assert Shape(empty);
    }
  }

  /**
   * The finished tree: submenus are reused by name, every list below the root hangs
   * under exactly one submenu, and the exit command is the one and only non-user
   * entry, last in the root list.
   */
  lemma TreeShape(commands: seq<UserCommand>, exit: ExitCommand)
    requires BuildTree(commands, exit).Success?
    ensures var t := BuildTree(commands, exit).value;
            && SubmenusFirstByName(t)
            && OwnedOnce(t)
            && forall l, k | 0 <= l < |t| && 0 <= k < |t[l]| && t[l][k].CommandEntry? && t[l][k].node.command.Exit? ::
                 l == 0 && k == |t[0]| - 1
  {
    var built := InsertAll(commands).value;
    InsertAllShape(commands);
    var entry := CommandEntry(CommandNodes.CommandNode(Exit(exit)));
    var t: Lists := AppendAt(built, 0, entry);
    forall l: nat, k: nat | 0 <= l < |t| && 0 <= k < |t[l]| && t[l][k].SubmenuEntry?
      ensures Find(t[l], t[l][k].name) == Some(k)
    {
      if l == 0 {
        assert k < |built[0]| && t[l][k] == built[l][k];
        FindStable(built[l], t[l], t[l][k].name);
      }
    }
    forall l, k, owned: ListId | Owner(t, l, k, owned) ensures Owner(built, l, k, owned) {
      if l == 0 { assert k < |built[0]|; }
    }
    forall owned: ListId | 0 < owned < |t| ensures IsOwned(t, owned) {
      assert IsOwned(built, owned);
      var l, k :| Owner(built, l, k, owned);
      assert Owner(t, l, k, owned);
    }
    forall l: nat, k: nat | 0 <= l < |t| && 0 <= k < |t[l]| && !(l == 0 && k == |t[0]| - 1)
      ensures t[l][k].CommandEntry? ==> t[l][k].node.command.User?
    {
      assert t[l][k] == built[l][k];
    }
  }

  /** Two submenus in one list never share a name. */
  lemma SubmenuNamesUnique(lists: Lists, l: nat, k1: nat, k2: nat)
    requires SubmenusFirstByName(lists) && l < |lists| && k1 < |lists[l]| && k2 < |lists[l]|
    requires lists[l][k1].SubmenuEntry? && lists[l][k2].SubmenuEntry? && lists[l][k1].name == lists[l][k2].name
    ensures k1 == k2
  {
    assert Find(lists[l], lists[l][k1].name) == Some(k1);
    assert Find(lists[l], lists[l][k2].name) == Some(k2);
  }
}
