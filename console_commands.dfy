/**
 * The commands a console menu offers: the user's commands (IConsoleCommandBase with a
 * Path and a Description) and the built-in ExitCommand.
 */
module ConsoleCommands {
  import opened Wrappers

  /** Which execution interface a user command implements: IConsoleCommand, IAsyncConsoleCommand, or only the base. */
  datatype CommandKind = Synchronous | Asynchronous | BaseOnly

  /** A user command; its path separates menu levels with '/'. */
  datatype UserCommand = UserCommand(path: string, description: string, kind: CommandKind)

  /** The identity of an action delegate (the exit command's onSelected). */
  type ActionId = nat

  /** ExitCommand(path, description, onSelected), each argument nullable. */
  datatype ExitCommand = ExitCommand(pathArg: Option<string>, descriptionArg: Option<string>, onSelected: Option<ActionId>)
  {
    /** `path ?? "Exit"`. */
    function Path(): (p: string)
      ensures pathArg.Some? ==> p == pathArg.value
      ensures pathArg.None? ==> p == "Exit"
    {
      pathArg.GetOr("Exit")
    }

    /** `description ?? "Closes the application."`. */
    function Description(): (d: string)
      ensures descriptionArg.Some? ==> d == descriptionArg.value
      ensures descriptionArg.None? ==> d == "Closes the application."
    {
      descriptionArg.GetOr("Closes the application.")
    }
  }

  /** The exit command the menu uses when no custom one is set. */
  const DefaultExit: ExitCommand := ExitCommand(None, None, None)

  datatype Command = Exit(exit: ExitCommand) | User(user: UserCommand)
  {
    function Path(): string
    {
      if Exit? then exit.Path() else user.path
    }
  }
}
