/** ConsoleApplicationBuilder: configures one application and hands it out once. */
module ConsoleAppBuilder {
  import opened Wrappers
  import opened ConsoleCommands
  import opened Menu
  import opened ConsoleApp

  /** The InvalidOperationException Build throws on a completed builder. */
  datatype BuildError = AlreadyCompleted

  class ConsoleApplicationBuilder {
    var isCompleted: bool
    const application: ConsoleApplication
    const menu: ConsoleMenu

    constructor (menu: ConsoleMenu)
      ensures this.menu == menu && !isCompleted
      ensures fresh(application) && application.menu == menu && application.title == None
    {
      this.menu := menu;
      application := new ConsoleApplication(menu);
      isCompleted := false;
    }

    /** Sets the application's title, in `color` (Gray unless given). */
    method WithTitle(title: string, color: ConsoleColor := Gray) returns (builder: ConsoleApplicationBuilder)
      modifies application
      ensures application.title == Some(ConsoleMessage(title, Some(color)))
      ensures builder == this
    {
      application.title := Some(ConsoleMessage(title, Some(color)));
      builder := this;
    }

    /** Replaces the menu's exit command; the menu then lists it under `path`. */
    method WithCustomExitCommand(path: string, description: string, onSelected: Option<ActionId> := None) returns (builder: ConsoleApplicationBuilder)
      modifies menu
      ensures menu.customExitCommand == Some(ExitCommand(Some(path), Some(description), onSelected))
      ensures menu.ExitEntry().Path() == path && menu.ExitEntry().Description() == description
      ensures builder == this
    {
      menu.customExitCommand := Some(ExitCommand(Some(path), Some(description), onSelected));
      builder := this;
    }

    /** Hands out the application the first time; every later call fails. */
    method Build() returns (r: Result<ConsoleApplication, BuildError>)
      modifies this
      ensures old(isCompleted) ==> r == Failure(AlreadyCompleted)
      ensures !old(isCompleted) ==> r == Success(application)
      ensures isCompleted
    {
      if isCompleted {
        return Failure(AlreadyCompleted);
      }
      isCompleted := true;
      return Success(application);
    }
  }

  /** A fresh builder builds once: the first Build succeeds and the second fails. */
  method BuildsOnce(menu: ConsoleMenu) returns (first: Result<ConsoleApplication, BuildError>, second: Result<ConsoleApplication, BuildError>)
    ensures first.Success? && first.value.menu == menu
    ensures second == Failure(AlreadyCompleted)
  {
    var builder := new ConsoleApplicationBuilder(menu);
    first := builder.Build();
    second := builder.Build();
  }
}
