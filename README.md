# AlmightyShogun.ConsoleCommands — a Dafny model of the command core

AlmightyShogun.ConsoleCommands is a small .NET framework for interactive console commands. A command is a method that carries a `ConsoleCommand` attribute. The handler reads lines from the console and splits each line on spaces. The first token selects a command by name or alias. The remaining tokens are bound, one by one, to the method's parameters. Each token is coerced to its parameter's type before the method is invoked.

This project models that core and proves properties about it:

- **Argument binding** (`ConsoleCommandBase`), module `CommandBase`:
  - the arity check against the required (no-default) parameters and the "ignore extra arguments" flag;
  - the binding loop over a fresh slot array, which stops at the first failed coercion of a value-typed parameter;
  - `GetParameterValue`: case-insensitive enum parsing; `Convert.ChangeType` to `Int32`, `Boolean`, `String` and `Object`; unwrapping `Nullable<T>`.

  The method `InternallyExecute` is proved equal to the functional specification `Execution`, and the lemmas state what `Execution` guarantees.
- **The handler** (`ConsoleCommandHandler`), module `CommandHandler`:
  - the constructor's table build, where `Add` of the lower-cased name throws on a duplicate and `TryAdd` of each non-blank lower-cased alias keeps the first claimant;
  - the dispatch of one line: split on `' '`, then an exact lookup of the first token;
  - the read loop's decision to discard blank lines.

  The build is a method with nested loops, proved equal to the recursive `CommandTable`. The handler is a class whose table is fixed at construction.
- **The listing record** (`ConsoleCommand`), module `CommandInfo`: the usage line and the example line derived by the constructor.
- **Utilities** (`ConsoleUtils`), module `ConsoleUtils`:
  - the usage fragment `<name:TypeName> …`;
  - the `GetAllCommands` filter over type and method descriptors;
  - the answer loop of `AskQuestionAsync`.

Two helper modules complete the model:

- `Text` models the .NET string primitives that the core relies on:
  - `String.Split(char)` and `String.Join`;
  - `ToLowerInvariant` on ASCII;
  - `char.IsWhiteSpace` on Latin-1;
  - `Trim`, `Int32.Parse` and `Boolean.Parse`.
- `Wrappers` provides `Option` and `Result`.

`Scenarios` works through concrete commands:

- an `echo` command with alias `e`;
- a greeting with a default;
- an enum-typed and an integer-typed command;
- an interface-typed and a class-typed parameter.

Console reads are a sequence of `Option<string>`, where `None` is a null read. The end of that sequence stands for cancellation.

Notes on behaviour that is easy to get wrong:

- **Splitting.** The line is split on the single character `' '`, not on any white space. Two spaces in a row therefore produce an empty argument token.
- **Lookup.** The first token is looked up exactly as typed; it is not lower-cased, although the keys are. A command name typed with an upper-case letter is therefore never found (`UpperCaseTokenIsUnknown`).
- **Nullable parameters.** A `Nullable<T>` parameter is not a class. A failed coercion of one therefore aborts the call; it does not bind null.
- **Nullable enums.** `IsEnum` is false for `Nullable<Enum>`, so such a parameter goes through `Convert.ChangeType` to the enum type, which cannot convert a string. A nullable-enum parameter never binds (`CoerceNullable`).
- **Interface parameters.** An interface type is a reference type, but `Type.IsClass` is false for it, and a string converts to no interface type. A failed coercion of an interface-typed parameter therefore aborts the call, whereas a parameter of a class type other than `String` or `Object` receives null and the handler still runs (`ReferenceParameterScenario`).
- **Missing arguments without a default.** The slot stays null and the method is still invoked.

## Model

| member | source | states |
|---|---|---|
| Text.Split | AlmightyShogun.ConsoleCommands/ConsoleCommandHandler.cs:65 | `String.Split(' ')`: every separator divides two pieces, empty pieces included, so there is always at least one piece |
| Text.SplitCount | AlmightyShogun.ConsoleCommands/ConsoleCommandHandler.cs:65 | there is one more piece than there are separators in the line |
| Text.JoinSplit | AlmightyShogun.ConsoleCommands/ConsoleCommandHandler.cs:65 | joining the pieces of a split with the separator gives back the input line |
| Text.SplitHasNoSeparator | AlmightyShogun.ConsoleCommands/ConsoleCommandHandler.cs:65 | no piece of a split contains the separator |
| Text.SplitJoin | AlmightyShogun.ConsoleCommands/ConsoleCommandHandler.cs:65 | splitting a join of one or more separator-free pieces gives back those pieces |
| Text.SplitHead | AlmightyShogun.ConsoleCommands/ConsoleCommandHandler.cs:65-66 | the first piece is the longest separator-free prefix; the rest is the split of what follows the first separator, or nothing when there is none |
| Text.ToLowerIsLowerCase | AlmightyShogun.ConsoleCommands/ConsoleCommandHandler.cs:17 | lower-casing keeps the length and leaves no upper-case letter |
| Text.UpperCaseIsNotLowerCase | AlmightyShogun.ConsoleCommands/ConsoleCommandHandler.cs:68 | a string with an upper-case letter is not in lower-case form |
| Text.ToLowerKeepsBlankness | AlmightyShogun.ConsoleCommands/ConsoleCommandHandler.cs:21-23 | lower-casing neither makes a blank alias non-blank nor a non-blank one blank |
| Text.ParseInt32 | AlmightyShogun.ConsoleCommands/ConsoleCommandBase.cs:138 | a parsed integer lies in the 32-bit signed range |
| Text.ParseDecimalString | AlmightyShogun.ConsoleCommands/ConsoleCommandBase.cs:138 | every 32-bit integer's decimal text parses back to that integer |
| Text.ParseBoolean | AlmightyShogun.ConsoleCommands/ConsoleCommandBase.cs:138 | `Boolean.Parse`: a parsed Boolean's text equals the trimmed input ignoring case |
| Text.ParseBooleanString | AlmightyShogun.ConsoleCommands/ConsoleCommandBase.cs:138 | "True" and "False" parse back to their Boolean |
| CommandBase.ParseEnum | AlmightyShogun.ConsoleCommands/ConsoleCommandBase.cs:122 | case-insensitive `Enum.Parse` by name: a result is a member equal to the trimmed token ignoring case |
| CommandBase.ChangeType | AlmightyShogun.ConsoleCommands/ConsoleCommandBase.cs:138 | `Convert.ChangeType` from a string: a converted value has the target type, and string and object targets receive the token itself |
| CommandBase.Coerce | AlmightyShogun.ConsoleCommands/ConsoleCommandBase.cs:114-150 | `GetParameterValue`: the enum branch or the conversion to the (nullable-unwrapped) type; a non-null result is a value of the parameter's type |
| CommandBase.ParseEnumSpec | AlmightyShogun.ConsoleCommands/ConsoleCommandBase.cs:122 | enum parsing succeeds iff some member equals the trimmed token ignoring case, and then yields the first such member |
| CommandBase.CoerceEnum | AlmightyShogun.ConsoleCommands/ConsoleCommandBase.cs:118-133 | an enum token coerces iff it names a member ignoring case; the value is that enum's first such member, and failure is null |
| CommandBase.CoerceNullable | AlmightyShogun.ConsoleCommands/ConsoleCommandBase.cs:138 | a nullable non-enum type coerces exactly as its underlying type; a nullable enum never coerces |
| CommandBase.CoerceReference | AlmightyShogun.ConsoleCommands/ConsoleCommandBase.cs:138-148 | string and object parameters receive the token itself; any other class fails to null |
| CommandBase.CoerceInt32 | AlmightyShogun.ConsoleCommands/ConsoleCommandBase.cs:138-148 | a 32-bit integer's decimal text coerces to that integer, and any successful coercion is in range |
| CommandBase.CoerceBoolean | AlmightyShogun.ConsoleCommands/ConsoleCommandBase.cs:138 | plain and nullable Boolean parameters read back the text of a Boolean |
| CommandBase.Required | AlmightyShogun.ConsoleCommands/ConsoleCommandBase.cs:64 | the number of parameters without a default never exceeds the parameter count |
| CommandBase.FirstAbort | AlmightyShogun.ConsoleCommands/ConsoleCommandBase.cs:78-86 | the first slot whose binding ends the call is a supplied argument of a non-class parameter whose coercion failed |
| CommandBase.Execution | AlmightyShogun.ConsoleCommands/ConsoleCommandBase.cs:62-94 | one execution: a mismatch exactly when the arity check fails, reporting parameter and argument counts; an abort at a supplied argument that its non-class parameter cannot take; an invocation with one slot per parameter |
| CommandBase.InternallyExecute | AlmightyShogun.ConsoleCommands/ConsoleCommandBase.cs:62-94 | the arity check, the binding loop over a fresh slot array and its early return yield exactly the outcome `Execution` specifies |
| CommandBase.FirstAbortSpec | AlmightyShogun.ConsoleCommands/ConsoleCommandBase.cs:78-86 | the binding loop aborts iff some supplied argument of a non-class parameter fails to coerce, and then at the first one |
| CommandBase.ArityRejection | AlmightyShogun.ConsoleCommands/ConsoleCommandBase.cs:64-74 | the call is rejected before binding iff there are fewer arguments than required parameters, or more than parameters while extra arguments are not ignored |
| CommandBase.InvokedIff | AlmightyShogun.ConsoleCommands/ConsoleCommandBase.cs:64-94 | the method is invoked iff the arity check passes and no non-class parameter's coercion fails |
| CommandBase.AbortedAtFirstFailure | AlmightyShogun.ConsoleCommands/ConsoleCommandBase.cs:82-86 | an aborted call passed the arity check and stopped at a supplied argument of a non-class parameter whose coercion failed; no earlier parameter aborts |
| CommandBase.InvokedBinding | AlmightyShogun.ConsoleCommands/ConsoleCommandBase.cs:76-91 | an invoked call has one slot per parameter: the coerced argument where one was supplied, else the default, else null |
| CommandBase.ExtraArgumentsIgnored | AlmightyShogun.ConsoleCommands/ConsoleCommandBase.cs:66-84 | with extra arguments ignored, surplus tokens pass the arity check and change nothing about the outcome |
| CommandBase.RequiredIsPrefix | AlmightyShogun.ConsoleCommands/ConsoleCommandBase.cs:64 | when defaults trail, the required parameters are exactly the first `Required` ones |
| CommandBase.UnfilledSlotsGetDefaults | AlmightyShogun.ConsoleCommands/ConsoleCommandBase.cs:88-91 | when defaults trail, every parameter past the supplied arguments receives its default |
| CommandHandler.RegisterAliases | AlmightyShogun.ConsoleCommands/ConsoleCommandHandler.cs:19-24 | the alias loop of one command keeps every existing entry and maps every key it adds to that command |
| CommandHandler.Register | AlmightyShogun.ConsoleCommands/ConsoleCommandHandler.cs:17-24 | one command: fails with its lower-cased name as the duplicate key exactly when that name is taken; otherwise keeps the old entries and maps the name to the command |
| CommandHandler.RegisterAll | AlmightyShogun.ConsoleCommands/ConsoleCommandHandler.cs:15-25 | the commands in order, stopping at the first failure; a successful run keeps every starting entry |
| CommandHandler.CommandTable | AlmightyShogun.ConsoleCommands/ConsoleCommandHandler.cs:10-26 | the constructor's table: failing takes at least two commands, and the first command's lower-cased name always maps to it |
| CommandHandler.BuildCommandTable | AlmightyShogun.ConsoleCommands/ConsoleCommandHandler.cs:10-26 | the constructor's nested loops produce the table, or the duplicate-key failure, that `CommandTable` specifies |
| CommandHandler.AliasKeysSpec | AlmightyShogun.ConsoleCommands/ConsoleCommandHandler.cs:19-24 | the alias keys are exactly the lower-cased non-blank aliases |
| CommandHandler.RegisterAliasesSpec | AlmightyShogun.ConsoleCommands/ConsoleCommandHandler.cs:19-24 | the alias loop adds exactly the new lower-cased non-blank aliases, mapped to the command, and leaves existing keys alone |
| CommandHandler.RegisterSpec | AlmightyShogun.ConsoleCommands/ConsoleCommandHandler.cs:17-24 | registering one command fails iff its lower-cased name is already a key, and otherwise adds the name and its alias keys |
| CommandHandler.RegisterAllSuccess | AlmightyShogun.ConsoleCommands/ConsoleCommandHandler.cs:15-25 | a successful build keeps every earlier entry, and its keys are the earlier keys plus every claimed name and alias |
| CommandHandler.RegisterAllFirstClaimant | AlmightyShogun.ConsoleCommands/ConsoleCommandHandler.cs:15-25 | a key maps to the first command that claims it |
| CommandHandler.RegisterAllFailure | AlmightyShogun.ConsoleCommands/ConsoleCommandHandler.cs:15-17 | the build fails iff some command's lower-cased name is already taken by an earlier entry or an earlier command's name or alias |
| CommandHandler.BuildFailsIffNameTaken | AlmightyShogun.ConsoleCommands/ConsoleCommandHandler.cs:17 | the constructor throws iff some command's lower-cased name was claimed by an earlier command |
| CommandHandler.BuildFailsOnTakenName | AlmightyShogun.ConsoleCommands/ConsoleCommandHandler.cs:17-23 | two names equal ignoring case, or a name equal to an earlier alias, make the build fail |
| CommandHandler.NamesResolve | AlmightyShogun.ConsoleCommands/ConsoleCommandHandler.cs:15-17 | after a successful build every command's lower-cased name maps to that command |
| CommandHandler.KeysAreClaims | AlmightyShogun.ConsoleCommands/ConsoleCommandHandler.cs:15-25 | the keys of a built table are exactly the lower-cased names and non-blank aliases |
| CommandHandler.FirstWriterWins | AlmightyShogun.ConsoleCommands/ConsoleCommandHandler.cs:23 | an alias claimed by several commands maps to the first of them |
| CommandHandler.TableOnlyGrows | AlmightyShogun.ConsoleCommands/ConsoleCommandHandler.cs:17-23 | registration never removes or overwrites an entry |
| CommandHandler.KeysAreLowerCase | AlmightyShogun.ConsoleCommands/ConsoleCommandHandler.cs:17-23 | every key is in lower-case form |
| CommandHandler.BlankAliasesNeverKeys | AlmightyShogun.ConsoleCommands/ConsoleCommandHandler.cs:21 | a blank key can only be some command's lower-cased name, never an alias |
| CommandHandler.DispatchLine | AlmightyShogun.ConsoleCommands/ConsoleCommandHandler.cs:61-79 | one line: the name looked up is the space-free text the line starts with; it is unknown exactly when it is not a key, and otherwise its command runs on the remaining pieces |
| CommandHandler.DispatchTokens | AlmightyShogun.ConsoleCommands/ConsoleCommandHandler.cs:65-70 | a line made of a space-free name and space-free arguments runs the command under that key with exactly those arguments, or reports the name unknown |
| CommandHandler.DispatchReadsFirstToken | AlmightyShogun.ConsoleCommands/ConsoleCommandHandler.cs:65-77 | the command name is the text before the first space, and the arguments are the pieces after it |
| CommandHandler.UpperCaseTokenIsUnknown | AlmightyShogun.ConsoleCommands/ConsoleCommandHandler.cs:68-77 | a first token with an upper-case letter is always reported as unknown, because lookup is exact and keys are lower-case |
| CommandHandler.LineStep | AlmightyShogun.ConsoleCommands/ConsoleCommandHandler.cs:37-45 | a read is discarded exactly when it is null, empty or white space; every other line is dispatched unchanged |
| CommandHandler.ConsoleCommandHandler.constructor | AlmightyShogun.ConsoleCommands/ConsoleCommandHandler.cs:10-26 | the handler's table is the built table of the injected commands |
| CommandHandler.ConsoleCommandHandler.HandleCommand | AlmightyShogun.ConsoleCommands/ConsoleCommandHandler.cs:61-79 | handling a line splits it, looks up the first token and runs the command on the rest, as `DispatchLine` specifies |
| CommandHandler.ConsoleCommandHandler.Start | AlmightyShogun.ConsoleCommands/ConsoleCommandHandler.cs:29-49 | the read loop produces one event per read, each discarding or dispatching that line by the blank-line rule |
| CommandInfo.NewConsoleCommand | AlmightyShogun.ConsoleCommands/ConsoleCommand.cs:11-18 | the constructor stores name, description and aliases as passed; the usage starts with the name and a space; the example is null exactly when the given one is null or blank |
| CommandInfo.UsageStartsWithName | AlmightyShogun.ConsoleCommands/ConsoleCommand.cs:16 | the usage line is the name, a space and the fragment; split on spaces, it starts with the name followed by the fragment's tokens |
| CommandInfo.ExampleRule | AlmightyShogun.ConsoleCommands/ConsoleCommand.cs:17 | the example is null iff the given one is null or blank, and is otherwise the name, a space and the example |
| ConsoleUtils.UsageFragment | AlmightyShogun.ConsoleCommands/ConsoleUtils.cs:70 | the parameters' `<name:TypeName>` fragments joined by spaces: empty exactly when there are no parameters, and otherwise opening with the first parameter's fragment |
| ConsoleUtils.NoParametersNoUsage | AlmightyShogun.ConsoleCommands/ConsoleUtils.cs:70 | a method without parameters has an empty usage fragment |
| ConsoleUtils.UsageFragmentTokens | AlmightyShogun.ConsoleCommands/ConsoleUtils.cs:70 | the fragment splits into one `<name:TypeName>` token per parameter, in order |
| ConsoleUtils.DescribeMethods | AlmightyShogun.ConsoleCommands/ConsoleUtils.cs:64-72 | a type's methods yield one entry per method with the command attribute |
| ConsoleUtils.GetAllCommands | AlmightyShogun.ConsoleCommands/ConsoleUtils.cs:61-72 | the listing has one entry per attributed method of a concrete command type |
| ConsoleUtils.DescribeMethodsSpec | AlmightyShogun.ConsoleCommands/ConsoleUtils.cs:64-72 | a type contributes one entry per method with the command attribute, and exactly the descriptions of those methods |
| ConsoleUtils.ListedIff | AlmightyShogun.ConsoleCommands/ConsoleUtils.cs:61-72 | an entry is listed iff it describes an attributed method of a concrete, non-interface type that implements the command interface |
| ConsoleUtils.ListingOfOneType | AlmightyShogun.ConsoleCommands/ConsoleUtils.cs:63-65 | a type that is abstract, an interface or not a command contributes nothing |
| ConsoleUtils.ListingConcat | AlmightyShogun.ConsoleCommands/ConsoleUtils.cs:61-72 | the listing runs type by type, in order |
| ConsoleUtils.Answer | AlmightyShogun.ConsoleCommands/ConsoleUtils.cs:42-44 | one prompt's answer is the default, or the non-empty input itself |
| ConsoleUtils.AnswerRule | AlmightyShogun.ConsoleCommands/ConsoleUtils.cs:42-44 | a non-empty input is the answer; an empty or null read yields the default; the answer is null iff both are missing |
| ConsoleUtils.AskQuestion | AlmightyShogun.ConsoleCommands/ConsoleUtils.cs:33-51 | the loop returns the first non-null answer together with its prompt number, and keeps asking only while every answer is null |
| ConsoleUtils.DefaultAnswersFirstPrompt | AlmightyShogun.ConsoleCommands/ConsoleUtils.cs:42-44 | with a default, the first prompt always answers |
| Scenarios.EchoTable | AlmightyShogun.ConsoleCommands/ConsoleCommandHandler.cs:15-24 | a command `echo` with alias `e` builds a table with exactly those two keys |
| Scenarios.EchoByAlias | AlmightyShogun.ConsoleCommands/ConsoleCommandHandler.cs:65-70 | `e hello` runs `echo` with the string `hello` |
| Scenarios.EchoWithoutArgument | AlmightyShogun.ConsoleCommands/ConsoleCommandBase.cs:66-73 | `echo` with no argument is rejected, expecting 1 and getting 0 |
| Scenarios.UnknownCommand | AlmightyShogun.ConsoleCommands/ConsoleCommandHandler.cs:68-77 | `unknown foo` reports `unknown` as not registered |
| Scenarios.GreetDefaultScenario | AlmightyShogun.ConsoleCommands/ConsoleCommandBase.cs:88-91 | an omitted optional argument receives its default |
| Scenarios.EnumScenario | AlmightyShogun.ConsoleCommands/ConsoleCommandBase.cs:118-133 | `green` binds the member `GREEN`; `purple` aborts at the first slot |
| Scenarios.IntegerScenario | AlmightyShogun.ConsoleCommands/ConsoleCommandBase.cs:136-139 | `42` binds 42 to an integer parameter |
| Scenarios.IntegerRejected | AlmightyShogun.ConsoleCommands/ConsoleCommandBase.cs:136-149 | `abc` aborts an integer parameter at the first slot |
| Scenarios.ReferenceParameterScenario | AlmightyShogun.ConsoleCommands/ConsoleCommandBase.cs:84-86 | an interface-typed parameter that cannot take its token aborts the call; a class-typed one receives null and the handler runs |

## Left out

- Console output is not modelled: the cursor movement of `RemoveLastConsoleLine`, colours and the question prompt text. None of it affects which command runs or which answer is returned.
- Asynchrony and cancellation are not modelled. `StartAsync` and `AskQuestionAsync` read from a finite sequence, and its end stands for cancellation or for reads running out.
- Reflection is out of scope: how `ConsoleCommandBase` finds its handler method, how `GetAllCommands` scans assemblies, and `MethodInfo.Invoke`. Commands and types are given as descriptors, and invocation is the `Invoked` outcome with the bound slots. The handler body, its exceptions and its awaited task are outside the core.
- Logging is not modelled. A warning is the corresponding outcome (`ArityMismatch`, `Aborted`, `Unknown`); the message text is not modelled.
- `ConsoleCommandsLoader`, the interfaces and the attribute classes are dependency-injection wiring and plain data. The defaults they carry are modelled only as fields of the datatypes: for example, `IgnoreExtraArgs` defaults to false at `Attributes/ConsoleCommandAttribute.cs:4`.
- Conversions to types other than `Int32`, `Boolean`, `String`, `Object` and enums are not modelled. Such types (floating point, other integer widths, `DateTime`, culture-dependent formats) are `OtherStruct`, `OtherClass` or `Interface`, whose conversion always fails.
- Several parsing forms are not modelled: `Enum.Parse`'s numeric and comma-separated flag forms, trailing NUL characters in `Int32.Parse`/`Boolean.Parse`, and culture-specific sign symbols.
- Only ASCII letters are lower-cased, and white space is the Latin-1 set. Unicode case mapping and white space beyond that are not modelled.
- Null aliases and null attribute names are not modelled. Aliases are non-null strings, and a blank alias is skipped.
- CommandHandler.ConsoleCommandHandler.constructor: requires a build that succeeds. The source's throwing case is `BuildCommandTable` returning `Failure(DuplicateKey(key))`, characterised by `BuildFailsIffNameTaken`.
- CommandHandler.ConsoleCommandHandler.Start: covers a finite run. The source loops until cancellation.
- ConsoleUtils.AskQuestion: when the reads run out before any answer it reports `StillAsking`. In that case the source keeps prompting.
