# Anima, modelled in Dafny

Anima is a small set of .NET libraries. This project models their core logic and proves properties of it:

- **Value types and extensions** (`Anima`).
  - `HexadecimalString` cleans, validates and normalises hex text, and converts to and from bytes.
  - `Enumeration` is a class-based enumeration with identity equality, a guarded `CompareTo` and a `FromValue` lookup.
  - `ToListedSentence` joins items into an English list ("a, b and c").
  - `DateTime.RoundToNearest` rounds a tick count to a block.
- **Console menu** (`Anima.Extensions.Console`).
  - `ConsoleMenu` builds a tree of submenus and command nodes from slash-separated command paths and adds an exit entry. It then walks the tree with the numbers the user types.
  - `CommandNode` names a node by the last segment of its path.
  - `ConsoleApplication` frames its title and calls the menu until the exit command is chosen.
  - `ConsoleApplicationBuilder` configures an application and hands it out exactly once.
- **Source-generator helpers.** This covers `ClassDefinition`'s name projections and the syntax and symbol predicates and filters in `Extensions`. It also covers the attribute-source templating in `AttributeHelper`. Both the current copy (`Anima.Utilities.SourceGeneration`) and the older copy (`Anima.Generators.Utilities`) are modelled.
- **Source generators.**
  - `RegisterServiceGenerator`, current and older: from the marked classes it computes service definitions, constructors and `IServiceCollection` registrations.
  - `ServiceBaseGenerator` writes constructors for abstract service bases.
  - `DbSetGenerator`, current and older: it chooses the context class and lists one `DbSet` property per entity.

Each core source file has a module of its own:

- `hexadecimal_string.dfy`, `enumeration.dfy`, `enumerable_extensions.dfy`, `date_time_extensions.dfy`;
- `command_node.dfy`, `console_commands.dfy`, `console_menu.dfy`, `console_application.dfy`, `console_application_builder.dfy`;
- `class_definition.dfy`, `source_generation_extensions.dfy`, `attribute_helper.dfy`, `legacy_attribute_helper.dfy`;
- `register_service_generator.dfy`, `legacy_register_service_generator.dfy`, `service_base_generator.dfy`, `db_set_generator.dfy`, `legacy_db_set_generator.dfy`.

Shared modules:

- `wrappers.dfy`: Option and Result.
- `sequences.dfy`: filtering, first-index search and subsequences.
- `text.dfy`: index, split, join and ASCII upper-casing.
- `symbols.dfy`: plain records that stand for the compiler's syntax and symbols.
- `generated_source.dfy`: logical records for the code the generators write.
- `service_registration.dfy`: the attribute lookup, lifetimes and names shared by the generators.
- `menu_tree_properties.dfy` and `menu_selection_properties.dfy`: the structural and interaction lemmas about the menu.

Where the source works step by step, the model does too:

- **Loops.**
  - `ToListedSentence`'s loop;
  - the nested loops of `CreateMenuTree`;
  - the selection loop of `ConsoleMenu.RunAsync`;
  - the application's run loop;
  - each generator's `foreach` loops.

  Each is a `method` with loop invariants, proved equal to a specification function. The properties are proved about that function.
- **Classes.**
  - The menu, the application and the builder are classes.
  - Only the builder changes state, through `modifies` frames. It sets the application's title and the menu's custom exit command.
  - The menu tree is not a field. `CreateMenuTree` builds it as a local value, which `RunAsync` then walks.
  - The menu's nested `List<IMenuNode>` objects are an arena: a sequence of lists. A submenu node holds the index of its child list.

### Where documentation and code differ

In each case below the model follows the code.

- The `WithTitle` documentation shows the title "My Application" framed by 28 `=` and rendered with two spaces at the word break. The code writes `2·len+1` = 29 `=`. Its title line puts a single space between all characters, the blank among them, so the word break is three spaces wide.
- The DbSet integration test expects classes marked with the `IEntity` interface to get a property. The generator's predicate never selects such classes.
- `Enumeration.CompareTo`'s last branch passes the other enumeration object itself to `Value.CompareTo`. It does not pass that object's value, so the alphabetical results the tests expect do not follow from the code.
- `new HexadecimalString(byte[])` on an empty array stores "". Parsing that text back with the string constructor throws, because the validation pattern needs at least one digit. `HexadecimalString.EmptyBytesCannotBeReparsed` states this. `HexadecimalString.ReparseToString` states the round trip for every non-empty value.
- The documentation that `RegisterServiceAttribute` generates says a service is registered against "the interface sharing the same name as the class with the 'I' prefix", and otherwise standalone. The current generator differs in two ways. It registers against every interface whose generic-free name, less its first character, occurs anywhere in the class's generic-free name. With no such interface, it registers against an abstract base class if there is one. `RegisterService.Interfaces` and `RegisterService.DefinitionRegistrations` state what the code does.
- In the current `RegisterServiceGenerator.BuildConstructors`, the branch at line 154 can never run. An earlier check returns for services without own fields (lines 134-137). The model keeps that branch as an `assert false`.

## Model

| member | source | states |
|---|---|---|
| HexadecimalString.FromString | src/Anima/DataTypes/HexadecimalString.cs:33-49 | rejects with InvalidHexadecimal exactly when nothing but separators is left or a non-separator is not a hex digit; rejects with OddLength exactly when the cleaned digits are odd in number; otherwise stores the upper-cased text with every separator removed |
| HexadecimalString.FromBytes | src/Anima/DataTypes/HexadecimalString.cs:55-58 | n bytes give 2n upper-case digits, byte k written as the digits of its high and low nibble at positions 2k and 2k+1 |
| HexadecimalString.ToString | src/Anima/DataTypes/HexadecimalString.cs:61 | the text handed out is always an even number of upper-case hex digits |
| HexadecimalString.ToBytes | src/Anima/DataTypes/HexadecimalString.cs:66-69 | length/2 bytes; byte k is 16 times the value of digit 2k plus the value of digit 2k+1 |
| HexadecimalString.BytesRoundTrip | src/Anima/DataTypes/HexadecimalString.cs:55-69 | bytes to a value and back to bytes gives the original bytes |
| HexadecimalString.ValueRoundTrip | src/Anima/DataTypes/HexadecimalString.cs:55-69 | a value to bytes and back gives the same normalised value |
| HexadecimalString.PairRoundTrip | src/Anima/DataTypes/HexadecimalString.cs:57-68 | two upper-case digits read as one byte are written back as the same two digits |
| HexadecimalString.ReparseToString | src/Anima/DataTypes/HexadecimalString.cs:33-61 | re-parsing the text of a non-empty value yields that same value; the empty value is rejected as invalid |
| HexadecimalString.EmptyBytesCannotBeReparsed | src/Anima/DataTypes/HexadecimalString.cs:37-57 | the value made from an empty byte array cannot be parsed back from its own text |
| EnumerableExtensions.ToListedSentence | src/Anima/Extensions/EnumerableExtensions.cs:31-51 | the loop's text equals the documented sentence: nothing, the lone item, or the first items joined by ", " then " {conjunction} " and the last; the conjunction defaults to "and" |
| EnumerableExtensions.PiecesMakeSentence | src/Anima/Extensions/EnumerableExtensions.cs:36-47 | the documented sentence is every item once, in input order, each preceded by its separator: none before the first, the conjunction before the last of two or more, ", " before the others |
| EnumerableExtensions.CommaPrefix | src/Anima/Extensions/EnumerableExtensions.cs:42-45 | the items before the last, with their separators, are those items joined by ", " |
| EnumerableExtensions.SentenceLength | src/Anima/Extensions/EnumerableExtensions.cs:36-47 | with n of at least 2 items the sentence's length is the items' total length plus 2(n-2) + len(conjunction) + 2 |
| EnumerableExtensions.DocumentedExample | src/Anima/Extensions/EnumerableExtensions.cs:19-29 | "One", "Two", "Three" with "or" give "One, Two or Three" |
| DateTimeExtensions.RoundToNearest | src/Anima/Extensions/DateTimeExtensions.cs:14-20 | fails with DivideByZero exactly for a zero block; any result is a representable DateTime of the input's kind |
| DateTimeExtensions.TruncDiv | src/Anima/Extensions/DateTimeExtensions.cs:17 | the C# quotient agrees with floor division on a non-negative dividend and positive divisor |
| DateTimeExtensions.TruncRem | src/Anima/Extensions/DateTimeExtensions.cs:16 | the C# remainder agrees with the mathematical remainder on a non-negative dividend and positive divisor |
| DateTimeExtensions.Target | src/Anima/Extensions/DateTimeExtensions.cs:16-19 | the aimed-at tick count is a multiple of the block, either the one at or below the input or the next one up |
| DateTimeExtensions.RoundsToTarget | src/Anima/Extensions/DateTimeExtensions.cs:16-19 | for a positive block the result is the lower multiple when the remainder is at most half the block and the next multiple otherwise, kind kept; it fails only when that multiple is past the last tick |
| DateTimeExtensions.RoundedIsMultiple | src/Anima/Extensions/DateTimeExtensions.cs:16-19 | the result is a multiple of the block |
| DateTimeExtensions.WithinHalfBlock | src/Anima/Extensions/DateTimeExtensions.cs:16-19 | the result is within half a block (integer division) of the input |
| DateTimeExtensions.NearestMultiple | src/Anima/Extensions/DateTimeExtensions.cs:9-19 | no multiple of the block is closer to the input than the one rounded to |
| DateTimeExtensions.MultipleUnchanged | src/Anima/Extensions/DateTimeExtensions.cs:16-19 | an input already on a multiple of the block comes back unchanged |
| DateTimeExtensions.RoundingIsIdempotent | src/Anima/Extensions/DateTimeExtensions.cs:16-19 | rounding a rounded value again returns it unchanged |
| DateTimeExtensions.TestCases | test/Anima.UnitTests/Extensions/DateTimeExtensionsTests.cs:15-32 | from any midnight: 11:00 to a day rounds down, 13:00 to a day rounds up to the next midnight, 11:00 to 12 hours rounds to noon |
| Enumeration.Member.constructor | src/Anima/DataTypes/Enumeration.cs:29-32 | a member keeps the runtime type and the value it is created with |
| Enumeration.Member.ToString | src/Anima/DataTypes/Enumeration.cs:46-70 | the text is the rendering of the member's Value, the value the implicit conversion hands out |
| Enumeration.Member.CompareTo | src/Anima/DataTypes/Enumeration.cs:49-68 | 0 for the same instance, 1 for null, the ArgumentException exactly when the other object has a different runtime type, and deferral to the value's CompareTo exactly for another member of the same type |
| Enumeration.FromValue | src/Anima/DataTypes/Enumeration.cs:79-89 | fails exactly when no member has the value; otherwise returns a member of the table with that value, with no earlier member holding it |
| Enumeration.FromValueFindsMember | src/Anima/DataTypes/Enumeration.cs:79-89 | with distinct values, looking up a member's value returns that very instance |
| Enumeration.EqualsIsIdentity | src/Anima/DataTypes/Enumeration.cs:40-55 | two members are Equal exactly when they are the same instance, and then CompareTo gives 0 |
| Enumeration.TestEnumeration | test/Anima.UnitTests/DataTypes/EnumerationTests.cs:30-74 | in the test table "Two" finds member Two, "Four" fails, comparing with an integer is a type mismatch, and comparing with null gives 1 |
| CommandNodes.NameOf | src/Anima.Extensions.Console/Menu/CommandNode.cs:9 | the name holds no '/', is a suffix of the path, and is either the whole path or starts right after a '/' |
| CommandNodes.NameOfPlainPath | src/Anima.Extensions.Console/Menu/CommandNode.cs:9 | a path with no '/' is its own name |
| CommandNodes.NameOfTrailingSlash | src/Anima.Extensions.Console/Menu/CommandNode.cs:9 | a path ending in '/' gives an empty name |
| CommandNodes.NameAfterLastSlash | src/Anima.Extensions.Console/Menu/CommandNode.cs:9 | the name is exactly the text after the last '/', whatever precedes it |
| CommandNodes.DefaultExitName | src/Anima.Extensions.Console/Menu/ConsoleMenu.cs:188-194 | the default exit entry is named "Exit" |
| ConsoleCommands.ExitCommand.Path | src/Anima.Extensions.Console/Menu/ConsoleMenu.cs:191 | the given path, or "Exit" when none is given |
| ConsoleCommands.ExitCommand.Description | src/Anima.Extensions.Console/Menu/ConsoleMenu.cs:194 | the given description, or "Closes the application." when none is given |
| Menu.AppendAt | src/Anima.Extensions.Console/Menu/ConsoleMenu.cs:133-150 | adding an entry to one list appends it at that list's end and leaves every other list as it was |
| Menu.NewList | src/Anima.Extensions.Console/Menu/ConsoleMenu.cs:135 | a new submenu's Children list starts empty, after every existing list |
| Menu.Find | src/Anima.Extensions.Console/Menu/ConsoleMenu.cs:132 | the position of the first entry with the name, or none exactly when no entry has it |
| Menu.Insert | src/Anima.Extensions.Console/Menu/ConsoleMenu.cs:126-147 | placing a command keeps every submenu pointing at an existing, later list, and never removes a list |
| Menu.InsertAll | src/Anima.Extensions.Console/Menu/ConsoleMenu.cs:119-148 | the tree built from the commands, in order, is well linked and has a root list |
| Menu.BuildTree | src/Anima.Extensions.Console/Menu/ConsoleMenu.cs:114-152 | fails exactly when placing the commands fails; otherwise the root's last entry is the exit command |
| Menu.Select | src/Anima.Extensions.Console/Menu/ConsoleMenu.cs:24-83 | a chosen command is found after reading at least one response and no more than the responses given |
| Menu.MenuRun | src/Anima.Extensions.Console/Menu/ConsoleMenu.cs:17-107 | a run that exits or runs a command has consumed at least one response; a command run records how the chosen command was executed |
| Menu.ExecutionOf | src/Anima.Extensions.Console/Menu/ConsoleMenu.cs:87-97 | a synchronous command is executed, an asynchronous one awaited, and a command implementing only the base interface is not run at all |
| Menu.PlaceCommand | src/Anima.Extensions.Console/Menu/ConsoleMenu.cs:121-147 | the token loop with its moving current list builds exactly what placing the command describes, including the invalid-cast failure |
| Menu.ConsoleMenu.constructor | src/Anima.Extensions.Console/Menu/ConsoleMenu.cs:9-14 | a new menu has the discovered commands and no custom exit command |
| Menu.ConsoleMenu.ExitEntry | src/Anima.Extensions.Console/Menu/ConsoleMenu.cs:150-194 | the custom exit command when set, else the default one with path "Exit" and description "Closes the application." |
| Menu.ConsoleMenu.CreateMenuTree | src/Anima.Extensions.Console/Menu/ConsoleMenu.cs:114-152 | the nested loops build exactly the described tree, failing with the first invalid cast, and append the exit entry to the root |
| Menu.ConsoleMenu.RunAsync | src/Anima.Extensions.Console/Menu/ConsoleMenu.cs:17-107 | the while loop ends exactly as the described selection does, and returns true exactly when the exit command was chosen |
| Menu.InsertAllKeepsFailure | src/Anima.Extensions.Console/Menu/ConsoleMenu.cs:119-148 | once placing a prefix of the commands fails, building the whole tree fails with that same error |
| MenuTree.Walk | src/Anima.Extensions.Console/Menu/ConsoleMenu.cs:129-141 | following submenus by name reaches an existing list |
| MenuTree.ExtendsTransitive | src/Anima.Extensions.Console/Menu/ConsoleMenu.cs:119-150 | growing a tree in two steps only appends to its lists |
| MenuTree.FindStable | src/Anima.Extensions.Console/Menu/ConsoleMenu.cs:132-136 | appending entries never changes which entry is found first by a name |
| MenuTree.FindAppended | src/Anima.Extensions.Console/Menu/ConsoleMenu.cs:132-136 | a name not yet present is found at the entry just appended |
| MenuTree.WalkStable | src/Anima.Extensions.Console/Menu/ConsoleMenu.cs:129-141 | a walk that reached a list or was blocked ends the same way in any grown tree |
| MenuTree.AppendAtExtends | src/Anima.Extensions.Console/Menu/ConsoleMenu.cs:133-145 | adding an entry only grows the tree |
| MenuTree.InsertExtends | src/Anima.Extensions.Console/Menu/ConsoleMenu.cs:126-147 | placing a command only grows the tree: no entry is removed or reordered |
| MenuTree.InsertIntoEmpty | src/Anima.Extensions.Console/Menu/ConsoleMenu.cs:126-147 | placing a command into an empty list never fails |
| MenuTree.InsertFailsIffBlocked | src/Anima.Extensions.Console/Menu/ConsoleMenu.cs:132-140 | placing a command fails exactly when the first entry named by one of its submenu tokens is a command |
| MenuTree.InsertPlaces | src/Anima.Extensions.Console/Menu/ConsoleMenu.cs:126-147 | a placed command is the last entry of the list reached by walking the submenus named by the tokens before its last |
| MenuTree.PlacedStep | src/Anima.Extensions.Console/Menu/ConsoleMenu.cs:129-141 | a command placed below a reused submenu is placed below the list holding that submenu |
| MenuTree.InsertAllPrefix | src/Anima.Extensions.Console/Menu/ConsoleMenu.cs:119-148 | the tree built from any prefix of the commands is contained in the tree built from all of them |
| MenuTree.PlacedWhenInserted | src/Anima.Extensions.Console/Menu/ConsoleMenu.cs:119-148 | right after command j is placed it is the last entry of the list reached by its path |
| MenuTree.TreeExtendsPrefix | src/Anima.Extensions.Console/Menu/ConsoleMenu.cs:119-150 | the finished tree, exit entry included, contains the tree built from any prefix of the commands |
| MenuTree.CommandReachable | src/Anima.Extensions.Console/Menu/ConsoleMenu.cs:119-147 | every command t1/.../tk is a command node named tk in the list reached through submenus named t1...t(k-1) in the finished tree |
| MenuTree.PlacedInPrefix | src/Anima.Extensions.Console/Menu/ConsoleMenu.cs:119-148 | each command is placed in some prefix tree that the finished tree contains |
| MenuTree.EntryStaysReachable | src/Anima.Extensions.Console/Menu/ConsoleMenu.cs:119-150 | a placed command stays reachable by the same path however the tree grows afterwards |
| MenuTree.NodeNamedByLastToken | src/Anima.Extensions.Console/Menu/ConsoleMenu.cs:123-145 | a command's node is named by the last token of its path |
| MenuTree.BuildFailsIffBlocked | src/Anima.Extensions.Console/Menu/ConsoleMenu.cs:132-140 | building the tree fails exactly when some command's path meets an earlier command entry where a submenu is needed |
| MenuTree.InsertAllFailsIffBlocked | src/Anima.Extensions.Console/Menu/ConsoleMenu.cs:119-148 | placing all the commands fails exactly when some command's path is blocked by an earlier command entry |
| MenuTree.BlockedFails | src/Anima.Extensions.Console/Menu/ConsoleMenu.cs:132-140 | a blocked command makes the whole build fail |
| MenuTree.FirstBlocked | src/Anima.Extensions.Console/Menu/ConsoleMenu.cs:132-140 | a failed build names a command whose path was blocked |
| MenuTree.CountAppendAt | src/Anima.Extensions.Console/Menu/ConsoleMenu.cs:133-145 | appending an entry adds one command entry exactly when it is a command |
| MenuTree.InsertCount | src/Anima.Extensions.Console/Menu/ConsoleMenu.cs:126-147 | placing a command adds exactly one command entry |
| MenuTree.InsertAllCount | src/Anima.Extensions.Console/Menu/ConsoleMenu.cs:119-148 | the commands placed give exactly that many command entries |
| MenuTree.TreeCommandCount | src/Anima.Extensions.Console/Menu/ConsoleMenu.cs:119-150 | the finished tree holds exactly the number of commands plus one command entries |
| MenuTree.InsertKeepsNonEmpty | src/Anima.Extensions.Console/Menu/ConsoleMenu.cs:129-146 | after placing a command every submenu, including any just created, has at least one child |
| MenuTree.InsertAllNonEmpty | src/Anima.Extensions.Console/Menu/ConsoleMenu.cs:119-148 | every submenu created while placing the commands has at least one child |
| MenuTree.SubmenusNonEmpty | src/Anima.Extensions.Console/Menu/ConsoleMenu.cs:119-150 | every submenu in the finished tree has at least one child |
| MenuTree.AppendCommandKeepsShape | src/Anima.Extensions.Console/Menu/ConsoleMenu.cs:145 | appending a user command keeps submenus unique by name, each list owned by one submenu, and only user commands |
| MenuTree.AppendSubmenuKeepsShape | src/Anima.Extensions.Console/Menu/ConsoleMenu.cs:133-137 | adding a submenu only for a name not yet present keeps that shape |
| MenuTree.InsertKeepsShape | src/Anima.Extensions.Console/Menu/ConsoleMenu.cs:126-147 | placing a command keeps that shape |
| MenuTree.InsertAllShape | src/Anima.Extensions.Console/Menu/ConsoleMenu.cs:119-148 | the tree of the placed commands has that shape |
| MenuTree.TreeShape | src/Anima.Extensions.Console/Menu/ConsoleMenu.cs:119-151 | in the finished tree each submenu is the first entry of its name, every list but the root belongs to exactly one submenu, and the only exit entry is the root's last |
| MenuTree.SubmenuNamesUnique | src/Anima.Extensions.Console/Menu/ConsoleMenu.cs:132-137 | no list holds two submenus with the same name |
| MenuSelection.SelectedIsInTree | src/Anima.Extensions.Console/Menu/ConsoleMenu.cs:57-74 | whatever command the loop ends on is a command entry of the tree |
| MenuSelection.InvalidResponsesIgnored | src/Anima.Extensions.Console/Menu/ConsoleMenu.cs:57-82 | responses that are not numbers, or not between 1 and Count, leave the current menu unchanged |
| MenuSelection.ChoosingExitEntryExits | src/Anima.Extensions.Console/Menu/ConsoleMenu.cs:86-150 | entering the number of the root's last entry chooses the exit command after one response |
| MenuSelection.ChosenCommandDispatch | src/Anima.Extensions.Console/Menu/ConsoleMenu.cs:85-106 | a run ending on a user command chose a command entry of the built tree, and executed it exactly as its kind asks |
| MenuSelection.ExitOutcomeIsExitEntry | src/Anima.Extensions.Console/Menu/ConsoleMenu.cs:86-150 | an exit outcome always carries the menu's own exit command |
| ConsoleApp.Border | src/Anima.Extensions.Console/Application/ConsoleApplication.cs:34 | the border is '=' repeated 2·len(title)+1 times |
| ConsoleApp.TitleLines | src/Anima.Extensions.Console/Application/ConsoleApplication.cs:30-38 | no lines without a title; otherwise three lines in the order Border, TitleLine, Border of the title's text |
| ConsoleApp.JoinSingles | src/Anima.Extensions.Console/Application/ConsoleApplication.cs:35 | one-character strings joined by a space interleave those characters with single spaces |
| ConsoleApp.TitleLine | src/Anima.Extensions.Console/Application/ConsoleApplication.cs:35 | a space, then the upper-cased title characters one space apart: 2·len characters for a non-empty title, one fewer than the border, and a single space for an empty one |
| ConsoleApp.RunsEndWithLast | src/Anima.Extensions.Console/Application/ConsoleApplication.cs:15 | the menu is called again after every command run and stops at the first call that does not run a command, after at most one call per response plus one |
| ConsoleApp.ReturnsOnlyAfterExit | src/Anima.Extensions.Console/Application/ConsoleApplication.cs:12-17 | when the loop stops because a call returned true, that call chose the menu's own exit command |
| ConsoleApp.RunEndsWith | src/Anima.Extensions.Console/Application/ConsoleApplication.cs:15 | the last call of the loop is a menu call from some later input position |
| ConsoleApp.ConsoleApplication.constructor | src/Anima.Extensions.Console/Application/ConsoleApplication.cs:7-9 | a new application holds its menu and has no title |
| ConsoleApp.ConsoleApplication.RunAsync | src/Anima.Extensions.Console/Application/ConsoleApplication.cs:12-17 | shows the title lines, calls the menu until a call returns true, then shows the closing lines |
| ConsoleApp.ConsoleApplication.RunOnceAsync | src/Anima.Extensions.Console/Application/ConsoleApplication.cs:20-25 | shows the title lines, calls the menu exactly once whatever it returns, then shows the closing lines once that call returns |
| ConsoleAppBuilder.ConsoleApplicationBuilder.constructor | src/Anima.Extensions.Console/Application/ConsoleApplicationBuilder.cs:7-10 | a new builder is not completed and owns one new application over the given menu, with no title |
| ConsoleAppBuilder.ConsoleApplicationBuilder.WithTitle | src/Anima.Extensions.Console/Application/ConsoleApplicationBuilder.cs:13-17 | stores the text and colour (Gray by default) as the application's title and returns the same builder, whatever the completed flag |
| ConsoleAppBuilder.ConsoleApplicationBuilder.WithCustomExitCommand | src/Anima.Extensions.Console/Application/ConsoleApplicationBuilder.cs:20-24 | sets the menu's custom exit command, which the menu then uses with the given path and description, and returns the same builder |
| ConsoleAppBuilder.ConsoleApplicationBuilder.Build | src/Anima.Extensions.Console/Application/ConsoleApplicationBuilder.cs:27-37 | the first call marks the builder completed and returns its application; every later call fails with InvalidOperationException |
| ConsoleAppBuilder.BuildsOnce | src/Anima.Extensions.Console/Application/ConsoleApplicationBuilder.cs:27-37 | on a new builder the first Build returns the application over the menu and the second fails |
| ClassDefinitions.WithoutGenerics | src/Anima.Utilities.SourceGeneration/ClassDefinition.cs:45-64 | NameWithoutGenerics and FullNameWithoutGenerics: a prefix of the name with no '<', which stops only at the first '<' |
| ClassDefinitions.WithoutGenericsUnique | src/Anima.Utilities.SourceGeneration/ClassDefinition.cs:45-52 | only one prefix of a name is '<'-free and stops at a '<' or the end, so the projection is exactly the text before the first '<' |
| ClassDefinitions.WithoutGenericsIdempotent | src/Anima.Utilities.SourceGeneration/ClassDefinition.cs:45-64 | applying the projection again changes nothing |
| ClassDefinitions.ClassDefinition.FileName | src/Anima.Utilities.SourceGeneration/ClassDefinition.cs:35 | the file name is the full name followed by ".g.cs" |
| ClassDefinitions.FileNameInjective | src/Anima.Utilities.SourceGeneration/ClassDefinition.cs:35 | classes with different full names get different file names |
| ClassDefinitions.GenericNameProjection | src/Anima.Utilities.SourceGeneration/ClassDefinition.cs:45-52 | a name written Base<Args> projects to Base |
| SourceGenerationExtensions.HasInterface | src/Anima.Utilities.SourceGeneration/Extensions.cs:19-28 | holds exactly when the class has a base list and one of its entries is written exactly as the name |
| SourceGenerationExtensions.MatchesGenericName | src/Anima.Utilities.SourceGeneration/Extensions.cs:40-51 | an entry matches exactly when it has a '<' and its text before the first '<' is the name |
| SourceGenerationExtensions.HasGenericInterface | src/Anima.Utilities.SourceGeneration/Extensions.cs:36-55 | holds exactly when some base-list entry has generic arguments and its name before them is the given one; false without a base list |
| SourceGenerationExtensions.HasAttribute | src/Anima.Utilities.SourceGeneration/Extensions.cs:64-69 | holds exactly when some attribute in some attribute list is written exactly as the name |
| SourceGenerationExtensions.HasGenericAttribute | src/Anima.Utilities.SourceGeneration/Extensions.cs:77-93 | holds exactly when some attribute in some list has generic arguments and its name before them is the given one |
| SourceGenerationExtensions.HasAnyAttribute | src/Anima.Utilities.SourceGeneration/Extensions.cs:134-140 | holds exactly when HasAttribute holds for one of the given names |
| SourceGenerationExtensions.HasBaseClass | src/Anima.Utilities.SourceGeneration/Extensions.cs:148-151 | always agrees with HasInterface: an exact match on a base-list entry, false without a base list |
| SourceGenerationExtensions.GetAttribute | src/Anima.Utilities.SourceGeneration/Extensions.cs:187-190 | the first attribute whose class has the given name, or none exactly when no attribute has it |
| SourceGenerationExtensions.HasAttributeIffGetAttribute | src/Anima.Utilities.SourceGeneration/Extensions.cs:159-190 | a symbol has the attribute exactly when GetAttribute finds one |
| SourceGenerationExtensions.ToPropertyName | src/Anima.Utilities.SourceGeneration/Extensions.cs:112-113 | fails exactly for names shorter than two characters; otherwise one character shorter, the second character upper-cased first, then the rest after it |
| SourceGenerationExtensions.PropertyNameExample | src/Anima.Utilities.SourceGeneration/Extensions.cs:106-113 | "_someValue" becomes "SomeValue" |
| SourceGenerationExtensions.Split | src/Anima.Utilities.SourceGeneration/Extensions.cs:121-126 | exactly the non-zero flags whose bits are all set in the value |
| SourceGenerationExtensions.SplitOrder | src/Anima.Utilities.SourceGeneration/Extensions.cs:121-126 | the flags come in the order the enumeration lists them |
| SourceGenerationExtensions.SplitZero | src/Anima.Utilities.SourceGeneration/Extensions.cs:121-126 | a zero value has no flags |
| SourceGenerationExtensions.FieldsOf | src/Anima.Utilities.SourceGeneration/Extensions.cs:199-200 | exactly the field members, each a member of the type |
| SourceGenerationExtensions.PrivateFieldsAmongProtected | src/Anima.Utilities.SourceGeneration/Extensions.cs:197-224 | the private filter keeps exactly the readonly, private, declared, uninitialised fields, in member order, and they are a subsequence of what the private-and-protected filter keeps |
| SourceGenerationExtensions.GetMarkedMethods | src/Anima.Utilities.SourceGeneration/Extensions.cs:232-238 | the names of exactly the methods carrying the marker attribute, one per method, in member order |
| AttributeHelper.TargetNames | src/Anima.Utilities.SourceGeneration/AttributeHelper.cs:60 | one "AttributeTargets.X" name per flag, in the flags' order |
| AttributeHelper.Usage | src/Anima.Utilities.SourceGeneration/AttributeHelper.cs:60-63 | the usage line is a single attribute line, which starts with '[' and so never with the summary's '/' |
| AttributeHelper.CreateSourceBuilder | src/Anima.Utilities.SourceGeneration/AttributeHelper.cs:40-65 | the four header lines "using System;", blank, "namespace {namespaceName};", blank; three summary lines only with a description; then the usage line of the split targets; last the class line callers continue from |
| AttributeHelper.CreateSource | src/Anima.Utilities.SourceGeneration/AttributeHelper.cs:19-24 | the builder's lines followed by a final "{}" |
| AttributeHelper.SummaryAfterHeader | src/Anima.Utilities.SourceGeneration/AttributeHelper.cs:52-58 | with a description, the three summary lines come right after the header |
| AttributeHelper.NoSummaryWithoutDescription | src/Anima.Utilities.SourceGeneration/AttributeHelper.cs:52-58 | without a description no summary line is written |
| AttributeHelper.HeaderHasNoSlash | src/Anima.Utilities.SourceGeneration/AttributeHelper.cs:46-50 | no header line starts with '/' |
| AttributeHelper.NoSlashLine | src/Anima.Utilities.SourceGeneration/AttributeHelper.cs:46-64 | a line starting with '/' is neither a header line, the usage line nor the class line |
| AttributeHelper.SplitAll | src/Anima.Utilities.SourceGeneration/AttributeHelper.cs:19-63 | the default target All lists every AttributeTargets member, All included, in declaration order |
| AttributeHelper.SplitMethod | src/Anima.Utilities.SourceGeneration/AttributeHelper.cs:60 | the Method target lists just Method |
| AttributeHelper.MethodMarkerSource | src/Anima.Utilities.SourceGeneration/AttributeHelper.cs:19-65 | a described methods-only marker is the header, the summary, the usage line for Method with AllowMultiple false, the class line and "{}" |
| LegacyAttributeHelper.NamespaceLine | src/Anima.Generators.Utilities/AttributeHelper.cs:21 | "namespace {nameSpace};", with a null namespace written as the empty string |
| LegacyAttributeHelper.CreateSourceBuilder | src/Anima.Generators.Utilities/AttributeHelper.cs:12-37 | the header with the namespace (default "Anima"), the summary only with a description, and the class line last |
| LegacyAttributeHelper.CreateSource | src/Anima.Generators.Utilities/AttributeHelper.cs:5-10 | the builder's lines followed by a final "{}" |
| LegacyAttributeHelper.AgreesWithHelper | src/Anima.Generators.Utilities/AttributeHelper.cs:5-37 | given a namespace, the older helper writes exactly what the newer one writes |
| LegacyAttributeHelper.NullNamespaceIsEmpty | src/Anima.Generators.Utilities/AttributeHelper.cs:14-21 | a null namespace gives the newer helper's source for the empty namespace |
| ServiceRegistration.FindAttribute | src/Anima.DependencyInjection.SourceGeneration/RegisterServiceGenerator.cs:36-37 | fails exactly when an unresolved attribute class comes before the first match; finds nothing exactly when every class resolves and none is the name; otherwise the first attribute of that class |
| ServiceRegistration.FindAttributeAgreesWithGetAttribute | src/Anima.DependencyInjection.SourceGeneration/RegisterServiceGenerator.cs:36-37 | with every attribute class resolved, the lookup finds what GetAttribute finds |
| ServiceRegistration.LifetimeArgument | src/Anima.DependencyInjection.SourceGeneration/RegisterServiceGenerator.cs:56 | 2 without the attribute or for a null argument, the first constructor argument otherwise, and an error when the attribute has no arguments |
| ServiceRegistration.LifetimeName | src/Anima.DependencyInjection.SourceGeneration/RegisterServiceGenerator.cs:56-62 | succeeds exactly for 0, 1 and 2; any other value fails with NotSupportedException carrying the value |
| ServiceRegistration.LifetimeRoundTrip | src/Anima.DependencyInjection.SourceGeneration/RegisterServiceGenerator.cs:56-62 | 0, 1 and 2 map to Singleton, Scoped and Transient, each name back to its own value |
| ServiceRegistration.Lifetime | src/Anima.DependencyInjection.SourceGeneration/RegisterServiceGenerator.cs:55-62 | a class without the attribute is Transient; any lifetime is the name of the attribute's argument |
| ServiceRegistration.ImplementationType | src/Anima.DependencyInjection.SourceGeneration/RegisterServiceGenerator.cs:52-54 | the full name for a non-generic class; for a generic one the full name's generic-free prefix followed by "<>" |
| ServiceRegistration.SanitizedAssemblyName | src/Anima.DependencyInjection.SourceGeneration/RegisterServiceGenerator.cs:88-91 | exactly the assembly name's characters other than '.', ' ' and '_' |
| ServiceRegistration.SanitizeIdempotent | src/Anima.DependencyInjection.SourceGeneration/RegisterServiceGenerator.cs:88-91 | sanitising twice changes nothing more |
| GeneratedSource.Parameters | src/Anima.DependencyInjection.SourceGeneration/RegisterServiceGenerator.cs:166-167 | one parameter per field, in field order, of the field's type and named by the field name without its first character |
| GeneratedSource.Assignments | src/Anima.DependencyInjection.SourceGeneration/RegisterServiceGenerator.cs:184-187 | one assignment per field, in field order, of the field from its parameter |
| GeneratedSource.ParameterNames | src/Anima.DependencyInjection.SourceGeneration/RegisterServiceGenerator.cs:176 | the base call forwards each parameter's name, in order |
| GeneratedSource.AppendParameters | src/Anima.DependencyInjection.SourceGeneration/RegisterServiceGenerator.cs:156-167 | the loop appends exactly the fields' parameters after those already written |
| GeneratedSource.AppendAssignments | src/Anima.DependencyInjection.SourceGeneration/RegisterServiceGenerator.cs:184-187 | the loop appends exactly the fields' assignments after those already written |
| GeneratedSource.AppendNames | src/Anima.DependencyInjection.SourceGeneration/RegisterServiceGenerator.cs:176 | the loop appends exactly the parameters' names after those already written |
| RegisterService.DisplayStrings | src/Anima.DependencyInjection.SourceGeneration/RegisterServiceGenerator.cs:49 | one display string per symbol, in order |
| RegisterService.Interfaces | src/Anima.DependencyInjection.SourceGeneration/RegisterServiceGenerator.cs:42-50 | fails exactly when some interface's generic-free name is empty; otherwise the display strings of the interfaces whose generic-free name less its first letter occurs in the class's, in AllInterfaces order |
| RegisterService.AbstractBase | src/Anima.DependencyInjection.SourceGeneration/RegisterServiceGenerator.cs:51 | set exactly when the class has an abstract base type, to that type's display string |
| RegisterService.Transform | src/Anima.DependencyInjection.SourceGeneration/RegisterServiceGenerator.cs:30-70 | fails exactly when the attribute lookup, the interface test or the lifetime fails; otherwise records the matched interfaces, the abstract base, the implementation type, the lifetime, the on-construct methods and the unassigned private readonly fields of the symbol |
| RegisterService.ConstructorFor | src/Anima.DependencyInjection.SourceGeneration/RegisterServiceGenerator.cs:132-137 | no constructor exactly when the service has no own service fields |
| RegisterService.ConstructorLayout | src/Anima.DependencyInjection.SourceGeneration/RegisterServiceGenerator.cs:139-200 | the constructor file is named after the class; its parameters are the base fields then the own fields; the base call, present exactly with an abstract base, forwards the base parameters; each own field is assigned from its parameter in order; then the on-construct methods are called |
| RegisterService.ConstructorSkippedWithoutOwnFields | src/Anima.DependencyInjection.SourceGeneration/RegisterServiceGenerator.cs:134-137 | a service without own fields gets no constructor, whatever its abstract base's fields |
| RegisterService.BuildConstructors | src/Anima.DependencyInjection.SourceGeneration/RegisterServiceGenerator.cs:132-201 | the appending steps build exactly the constructor described, the branch at line 154 being unreachable |
| RegisterService.ConstructorsFollowOwners | src/Anima.DependencyInjection.SourceGeneration/RegisterServiceGenerator.cs:83-86 | the constructor files are those of the services with own fields, one each, in definition order |
| RegisterService.DefinitionRegistrations | src/Anima.DependencyInjection.SourceGeneration/RegisterServiceGenerator.cs:105-118 | one registration per matched interface; with none, a single registration against the abstract base if there is one, else standalone |
| RegisterService.ConstructorsStep | src/Anima.DependencyInjection.SourceGeneration/RegisterServiceGenerator.cs:83-86 | each service's constructor, if any, follows those of the services before it |
| RegisterService.BuildAllConstructors | src/Anima.DependencyInjection.SourceGeneration/RegisterServiceGenerator.cs:83-86 | the first foreach writes exactly the constructor files described |
| RegisterService.BuildRegistrations | src/Anima.DependencyInjection.SourceGeneration/RegisterServiceGenerator.cs:103-119 | the nested foreach writes exactly the registrations described, in definition order |
| RegisterService.BuildSource | src/Anima.DependencyInjection.SourceGeneration/RegisterServiceGenerator.cs:73-130 | writes exactly the described files: none for no services, else the constructors then the extensions file |
| RegisterService.RegistrationsAppend | src/Anima.DependencyInjection.SourceGeneration/RegisterServiceGenerator.cs:103-119 | the registrations of two runs of services are those of each, one after the other |
| RegisterService.RegistrationsInOrder | src/Anima.DependencyInjection.SourceGeneration/RegisterServiceGenerator.cs:103-119 | the registrations of service i come right after those of the services before it |
| RegisterService.GeneratedFilesShape | src/Anima.DependencyInjection.SourceGeneration/RegisterServiceGenerator.cs:83-129 | for some services: one constructor file per service with own fields, under its file name and in order, then one "{A}ServiceExtensions.g.cs" file with method Add{A}, A free of '.', ' ' and '_' |
| RegisterService.NothingForNoServices | src/Anima.DependencyInjection.SourceGeneration/RegisterServiceGenerator.cs:78-81 | no services, no files, not even the extensions class |
| RegisterService.TransientByDefault | src/Anima.DependencyInjection.SourceGeneration/RegisterServiceGenerator.cs:36-62 | a class whose symbol carries no RegisterServiceAttribute, with resolvable attribute classes and non-empty interface names, is registered as Transient |
| RegisterService.TransientForNullArgument | src/Anima.DependencyInjection.SourceGeneration/RegisterServiceGenerator.cs:36-62 | a class whose first RegisterServiceAttribute has a null first argument, with the attributes before it resolved and non-empty interface names, is registered as Transient |
| LegacyRegisterService.Interface | src/Anima.Generators/DependencyInjection/RegisterServiceGenerator.cs:32-34 | fails only with an empty interface name; any interface found is the display string of one of the class's interfaces |
| LegacyRegisterService.InterfaceIsFirstStop | src/Anima.Generators/DependencyInjection/RegisterServiceGenerator.cs:32-34 | the scan stops at the first interface whose last segment is empty or, less its first letter, is the class name: none gives no interface, an empty segment throws, a match gives that interface |
| LegacyRegisterService.Transform | src/Anima.Generators/DependencyInjection/RegisterServiceGenerator.cs:21-53 | fails exactly when the attribute lookup, the interface scan or the lifetime fails; otherwise records the interface, implementation type, lifetime, view-model flag and on-construct methods of the symbol |
| LegacyRegisterService.ConstructorFor | src/Anima.Generators/DependencyInjection/RegisterServiceGenerator.cs:110-123 | no constructor exactly when the class has no unassigned private readonly field |
| LegacyRegisterService.ConstructorAgreesWithNewer | src/Anima.Generators/DependencyInjection/RegisterServiceGenerator.cs:110-157 | for a class without an abstract base the older constructor is the one the newer generator writes |
| LegacyRegisterService.BuildConstructors | src/Anima.Generators/DependencyInjection/RegisterServiceGenerator.cs:110-157 | the steps build exactly the constructor described |
| LegacyRegisterService.ConstructorsFollowOwners | src/Anima.Generators/DependencyInjection/RegisterServiceGenerator.cs:65-68 | the constructor files are those of the services that get one, one each, in definition order |
| LegacyRegisterService.ConstructorOwners | src/Anima.Generators/DependencyInjection/RegisterServiceGenerator.cs:65-68 | the services that get a constructor are exactly those that are not view models and have an unassigned private readonly field |
| LegacyRegisterService.Registrations | src/Anima.Generators/DependencyInjection/RegisterServiceGenerator.cs:87-97 | one registration per service, view models included, in definition order, with its lifetime, interface and implementation type |
| LegacyRegisterService.BuildAllConstructors | src/Anima.Generators/DependencyInjection/RegisterServiceGenerator.cs:65-68 | the first foreach writes exactly the constructor files described |
| LegacyRegisterService.BuildSource | src/Anima.Generators/DependencyInjection/RegisterServiceGenerator.cs:55-108 | writes nothing for no services, else the constructor files then AnimaServiceExtensions.g.cs |
| ServiceBase.ConstructorFor | src/Anima.DependencyInjection.SourceGeneration/ServiceBaseGenerator.cs:31-60 | the file is named after the class; one parameter and one assignment per private or protected unassigned readonly field, in order, no base call, then the on-construct calls |
| ServiceBase.FilesFollowAbstracts | src/Anima.DependencyInjection.SourceGeneration/ServiceBaseGenerator.cs:29 | the files are the constructors of the abstract definitions, one each, in definition order |
| ServiceBase.BuildConstructor | src/Anima.DependencyInjection.SourceGeneration/ServiceBaseGenerator.cs:31-60 | the loop body builds exactly the constructor described |
| ServiceBase.BuildSource | src/Anima.DependencyInjection.SourceGeneration/ServiceBaseGenerator.cs:24-62 | the foreach writes exactly one constructor per abstract definition |
| ServiceBase.BaseCallMatchesBaseConstructor | src/Anima.DependencyInjection.SourceGeneration/ServiceBaseGenerator.cs:42 | a registered service's base call passes exactly the parameter names of the constructor written for its abstract base |
| DbSetGenerator.Properties | src/Anima.EntityFrameworkCore.SourceGeneration/DbSetGenerator.cs:49-53 | one property per definition not based on DbContext, in definition order, typed by its full name and named by its pluralized name |
| DbSetGenerator.BuildProperties | src/Anima.EntityFrameworkCore.SourceGeneration/DbSetGenerator.cs:49-53 | the foreach appends exactly those properties |
| DbSetGenerator.GeneratedFiles | src/Anima.EntityFrameworkCore.SourceGeneration/DbSetGenerator.cs:37-58 | at most one file; none exactly when no definition is marked [GenerateDbSets]; otherwise the partial class of the first marked definition, under its file name |
| DbSetGenerator.BuildSource | src/Anima.EntityFrameworkCore.SourceGeneration/DbSetGenerator.cs:32-60 | writes exactly the file described |
| DbSetGenerator.RootListedUnlessDbContext | src/Anima.EntityFrameworkCore.SourceGeneration/DbSetGenerator.cs:49 | a definition, the marked context included, gets a property exactly when it does not derive from DbContext |
| LegacyDbSetGenerator.LegacyGeneratedFiles | src/Anima.Generators/EntityFrameworkCore/DbSetGenerator.cs:24-43 | at most one file; none exactly when no definition derives from DbContext; otherwise the partial class of the first such definition |
| LegacyDbSetGenerator.LegacyBuildSource | src/Anima.Generators/EntityFrameworkCore/DbSetGenerator.cs:19-45 | writes exactly the file described |
| LegacyDbSetGenerator.RootNeverListed | src/Anima.Generators/EntityFrameworkCore/DbSetGenerator.cs:34 | the older context never lists itself among its properties |
| LegacyDbSetGenerator.AgreesWhenRootsCoincide | src/Anima.Generators/EntityFrameworkCore/DbSetGenerator.cs:24 | when the first DbContext is also the first marked class, both generators write the same file |
| SourceGenerationExtensions.MarkedWith | src/Anima.DependencyInjection.SourceGeneration/RegisterServiceGenerator.cs:26-27 | the predicate of the RegisterService generators (both copies) and of the ServiceBase generator: a declaration is picked up exactly when one of its attribute lists names the marker by its short name; the long form alone is not picked up |
| DbSetGenerator.Predicate | src/Anima.EntityFrameworkCore.SourceGeneration/DbSetGenerator.cs:25-27 | a declaration is picked up exactly when an attribute list names GenerateDbSets or a base-list entry is a generic IEntityTypeConfiguration |
| LegacyDbSetGenerator.LegacyPredicate | src/Anima.Generators/EntityFrameworkCore/DbSetGenerator.cs:15-17 | a declaration is picked up exactly when its base list has the entry DbContext or a generic IEntityTypeConfiguration entry; never without a base list |


## Left out

- The compiler's incremental generator pipeline (`IncrementalClassGenerator`): syntax providers, caching and cancellation. Each generator model starts from the ordered sequence of definitions that pipeline would hand it.
- Roslyn syntax and symbol objects: they belong to a library outside this repository. `ToDisplayString`, `AllInterfaces`, `GetMembers` and field declarations are plain records with the fields the generators read.
- `SourceBuilder` text: its file is not part of this model, so indentation and the exact separators of `AppendLines` are unknown. Generated code is modelled as logical records (namespace, class, parameters, base call, assignments, calls, registrations, properties), not as text.
- `Pluralize` (Pluralize.NET): a function parameter with no assumed behaviour.
- Console output: colours, the rendering and printing parts of `ConsoleMenu.RunAsync`, and `ConsoleWriter`. `DisplayTitle` is modelled as the lines it writes.
- `EndApplication`: it waits for a key press (`ReadKey`), which is I/O.
- `GetAllCommands`: it scans assemblies through reflection and `ActivatorUtilities`. The menu takes the command sequence as given.
- Reading input: the typed numbers are a sequence with `None` for text that is not a number. When that sequence runs out, a run ends with `AwaitingInput`. While standard input stays open, the source would keep waiting for the next line. Once it is closed, `Console.ReadLine()` returns null, `int.TryParse` fails, and the loop prints the "is not a valid option" message forever (src/Anima.Extensions.Console/Menu/ConsoleMenu.cs:24, 53-57, 79-81).
- Command execution is asynchronous in the source. Running a command is modelled as an outcome naming that command.
- `Enumeration.FromValue`: it finds members by reflection. The model uses a fixed table of members in declaration order.
- Enumeration.Member.CompareTo: the last branch, which compares two members of one type, returns `Delegated` instead of an ordering. The branch passes the object to `Value.CompareTo`, whose result depends on the value type's own comparison.
- Library text routines (regular expressions, Unicode white space, culture-aware `ToUpper`): the model is restricted to ASCII. It states the effect of the two regular expressions directly: separators are white space and '-', and the rest must be hex digits.
- DateTimeExtensions.RoundToNearest: `DateTime` range limits are modelled only as a `TicksOutOfRange` failure, and a zero block as `DivideByZero`. Overflow of intermediate tick arithmetic is not modelled separately.
- `FileSystemExtensions.CombineNormalized`: it wraps a file-system library call.
- The constant source texts (`RegisterServiceAttribute`, `OnConstructAttribute`, `ServiceBaseAttribute`, `GenerateDbSetsAttribute`, `EntityInterface`, `StaticSourceDefinition`): they are fixed strings with no logic.
- The service-collection registration in `Anima.Extensions.Console/Extensions.cs`: it is container wiring.
- The `ExitCommand`'s `onSelected` action: the menu returns before executing an exit command, so the action is recorded and never invoked.
- `BaseServiceFields`: the current `RegisterServiceGenerator` stores the base fields on the definition as a side effect. The model computes them where they are used.
- A null assembly name: the model takes the assembly name as a string.
- `ServiceDefinition` and `ClassDefinition.IsAbstract`: their files are not part of this model. Their members are those the generators read. `IsAbstract` is the symbol's flag.
- `GetMembersByAttribute`: it is modelled for method members only, the one use the generators make of it.
- The older `Extensions` and `ClassDefinition` copies share the current copy's model where they are identical. Agreement lemmas relate the modules that differ.
- AttributeHelper.Usage: its own contract states only that the line is an attribute line. The line's content is stated by `AttributeHelper.CreateSourceBuilder` and `AttributeHelper.MethodMarkerSource`.
- Menu.Insert: its own contract states only how the lists stay linked. Where the command lands is proved in the `MenuTree` lemmas.
