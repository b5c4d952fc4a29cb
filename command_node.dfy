/** CommandNode: a menu entry for one command, named by the last segment of its path. */
module CommandNodes {
  import Text
  import opened ConsoleCommands

  /** `Path.Split('/')[^1]`. */
  function NameOf(path: string): (name: string)
    ensures '/' !in name
    ensures |name| <= |path| && path[|path| - |name|..] == name
    ensures |name| < |path| ==> path[|path| - |name| - 1] == '/'
  {
    var parts := Text.Split(path, '/');
    Text.SplitLast(path, '/');
    Text.SplitPartsAreSeparatorFree(path, '/');
    parts[|parts| - 1]
  }

  datatype CommandNode = CommandNode(command: Command)
  {
    function Name(): string
    {
      NameOf(command.Path())
    }
  }

  /** A path without '/' names the node after the whole path (the root menu holds it). */
  lemma NameOfPlainPath(path: string)
    requires '/' !in path
    ensures NameOf(path) == path
  {
  }

  /** A path ending in '/' gives an empty name. */
  lemma NameOfTrailingSlash(path: string)
    requires |path| > 0 && path[|path| - 1] == '/'
    ensures NameOf(path) == ""
  {
  }

  /** The name is exactly the text after the last '/', whatever comes before it. */
  lemma NameAfterLastSlash(prefix: string, name: string)
    requires '/' !in name
    ensures NameOf(prefix + "/" + name) == name
  {
    var path := prefix + "/" + name;
    var r := NameOf(path);
    var k := |path| - |name| - 1;
    assert path[k] == '/';
    assert path[k + 1..] == name;
  }

  /** The default exit entry is named "Exit". */
  lemma DefaultExitName()
    ensures CommandNode(Exit(DefaultExit)).Name() == "Exit"
  {
    NameOfPlainPath("Exit");
  }
}
