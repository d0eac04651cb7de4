# TcpLika command line

This project models `TcpLikaCommandLine`, the command-line front end of the
TcpLika TCP load generator. The front end does three things:

- **Resolve** (`ParseOptions`). It walks the options of the lexer's result one
  key at a time and asks the option catalog for each key's kind. A key of
  unknown kind aborts. Integer options (threads, receive and send buffer sizes,
  connections, connect timeout, connection lifetime) must parse as a 32-bit
  integer of at least 1. Nagle must be `ON` or `OFF` in any case. The switches
  (web socket, help, version) only set their flag. Each positional argument is
  then read as `<host>:<port>` and appended, in order, to the remote endpoints.
  Any bad positional argument aborts with an endpoint error.
- **Validate** (`ValidateOptions`). Unless help or version was asked for, at
  least one endpoint is needed.
- **Dispatch** (`Execute`). It shows the usage if help was given, otherwise the
  version if version was given, otherwise it starts the engine. It terminates
  after whichever branch ran.

The modules follow that structure:

- `Wrappers`: `Option`, `Result` and `Outcome`.
- `Text`: the .NET text operations the code relies on.
  - `String.Split` on one character.
  - `ToUpperInvariant`.
  - `Int32.TryParse` / `Int32.Parse`, with `FormatInt`, which the parser inverts
    (`ParseInt(FormatInt(n)) == Some(n)`; the converse fails, e.g. for `+007`).
- `Options`: the values.
  - Option kinds.
  - The lexer's result.
  - Endpoints.
  - The run configuration `TcpLikaCommandLineOptions`.
  - Errors.
- `EndPoints`: reading one positional argument, and the whole list.
- `CommandLine`:
  - The resolver as imperative methods (`ParseOptions`, `ParseArguments`,
    `ApplyOption`, `AppendEndPoints`), each proved equal to its part of the
    declarative specification `Resolve`.
  - `ValidateOptions`.
  - The dispatch specification `Run` / `Dispatch`.
  - The class `TcpLikaCommandLine`, whose `Execute` is proved against `Run`.

The option catalog (`TcpLikaOptions.GetOptionType`), the address parser
(`IPAddress.Parse`) and the engine's outcome are function-valued parameters.

Two consequences of the code are proved:

- A positional argument is split on *every* `:`. The address handed to the
  address parser therefore never contains a `:` (`EndPointHostHasNoColon`), so
  an IPv6 literal can never be given as an endpoint.
- Pieces after the port are ignored (`EndPointIgnoresTrailingParts`).

Three more behaviours of the code are easy to misread:

- One might expect `Terminate()` on every path of `Execute`. The code reaches it
  only after the dispatch: a resolution or validation error escapes before it
  (`TerminatesAfterEveryBranch`, `TcpLikaCommandLine.Execute`).
- A help or version key does not spare a bad option or a bad positional
  argument. Both loops of the resolver run before the dispatch, so `-h` with a
  rejected option or a malformed endpoint lets that error escape instead of
  showing the usage or the version (`ResolveStopsAtFirstRejectedOption`,
  `ResolveStopsAtFirstBadEndPoint`, `TerminatesAfterEveryBranch`).
- The arguments are a dictionary, so a key occurs at most once. The model's
  sequence of pairs also allows repeated keys, which the lexer never
  produces. Two spellings of the same option can still map to the same kind.
  The value applied is then the one the dictionary enumerates last (`LastValue`,
  `ConfiguredByLastOption`).

## Model

| member | source | states |
|---|---|---|
| Text.Split | Cowboy.TcpLika/TcpLikaCommandLine.cs:186 | `item.Split(':')` always yields at least one piece, empty pieces kept (its inverse and the other properties are the lemmas below) |
| Text.SplitJoin | Cowboy.TcpLika/TcpLikaCommandLine.cs:186 | splitting pieces joined with the separator gives back the pieces, when no piece holds the separator |
| Text.JoinSplit | Cowboy.TcpLika/TcpLikaCommandLine.cs:186 | the split pieces joined with the separator give back the text: splitting loses nothing |
| Text.SplitPiecesHaveNoSeparator | Cowboy.TcpLika/TcpLikaCommandLine.cs:186 | no piece of a split holds the separator |
| Text.SplitHasTwoParts | Cowboy.TcpLika/TcpLikaCommandLine.cs:186-187 | a split has at least two pieces exactly when the text holds the separator |
| Text.SplitConcat | Cowboy.TcpLika/TcpLikaCommandLine.cs:186 | splitting `a + sep + b` gives the pieces of `a` followed by the pieces of `b` |
| Text.SplitWithoutSeparator | Cowboy.TcpLika/TcpLikaCommandLine.cs:186 | a text without the separator splits into itself alone |
| Text.ToUpperInvariant | Cowboy.TcpLika/TcpLikaCommandLine.cs:95 | upper-casing keeps the length of the text |
| Text.ToUpperInvariantAt | Cowboy.TcpLika/TcpLikaCommandLine.cs:95 | upper-casing keeps the length and upper-cases each character in place |
| Text.UpperEqualsIgnoringCase | Cowboy.TcpLika/TcpLikaCommandLine.cs:95-96 | a text upper-cases to a word without lower-case letters exactly when it matches that word letter by letter in either case |
| Text.UpperIsOn | Cowboy.TcpLika/TcpLikaCommandLine.cs:95-99 | exactly `ON`, `On`, `oN` and `on` upper-case to `ON` |
| Text.UpperIsOff | Cowboy.TcpLika/TcpLikaCommandLine.cs:95-96 | exactly the eight case spellings of `off` upper-case to `OFF` |
| Text.SpellingsOfOn | Cowboy.TcpLika/TcpLikaCommandLine.cs:96 | the four spellings of `on` are exactly the two-letter texts of `o`/`O` then `n`/`N` |
| Text.SpellingsOfOff | Cowboy.TcpLika/TcpLikaCommandLine.cs:96 | the eight spellings of `off` are exactly the three-letter texts of `o`/`O` then `f`/`F` twice |
| Text.TrimStartIsSuffix | Cowboy.TcpLika/TcpLikaCommandLine.cs:83 | the integer parser's leading trim removes exactly the leading white space |
| Text.TrimEndIsPrefix | Cowboy.TcpLika/TcpLikaCommandLine.cs:83 | the integer parser's trailing trim removes exactly the trailing white space |
| Text.ParseInt | Cowboy.TcpLika/TcpLikaCommandLine.cs:83 | `int.TryParse` succeeds only with a value in the 32-bit signed range |
| Text.ParseFormatInt | Cowboy.TcpLika/TcpLikaCommandLine.cs:83 | every 32-bit integer written in decimal parses back to itself |
| Text.FormatIntHasNoColon | Cowboy.TcpLika/TcpLikaCommandLine.cs:192 | a decimal port text holds no `:`, so it survives the endpoint split |
| Text.ParseFormatIntOutOfRange | Cowboy.TcpLika/TcpLikaCommandLine.cs:83 | the decimal text of a number outside the 32-bit range does not parse |
| EndPoints.ParseEndPoint | Cowboy.TcpLika/TcpLikaCommandLine.cs:186-193 | an argument is accepted exactly when it has at least two `:`-pieces, the address parser accepts the first and the second parses as a port in 0..65535; the endpoint is then that address and port. A port-range error carries a port outside that range |
| EndPoints.EndPointRoundTrip | Cowboy.TcpLika/TcpLikaCommandLine.cs:186-193 | `<host>:<port>` with a colon-free host the address parser accepts and a port in 0..65535 reads back as that address and port |
| EndPoints.EndPointHostHasNoColon | Cowboy.TcpLika/TcpLikaCommandLine.cs:186-191 | an accepted endpoint text is `host:rest`, where the host has no `:` and is what the address parser accepted |
| EndPoints.EndPointNeedsColon | Cowboy.TcpLika/TcpLikaCommandLine.cs:186-189 | a positional argument fails as not `<host:port>` exactly when it holds no `:` |
| EndPoints.EndPointIgnoresTrailingParts | Cowboy.TcpLika/TcpLikaCommandLine.cs:186-192 | appending `:extra` to an argument that already holds a `:` does not change its reading |
| EndPoints.EndPointsInOrder | Cowboy.TcpLika/TcpLikaCommandLine.cs:184-195 | the endpoint list has one entry per positional argument, in order, each the reading of its argument |
| EndPoints.EndPointsAllAccepted | Cowboy.TcpLika/TcpLikaCommandLine.cs:184-195 | when every positional argument reads as an endpoint, the whole list does |
| EndPoints.EndPointsFailAt | Cowboy.TcpLika/TcpLikaCommandLine.cs:182-200 | the first positional argument that is not an endpoint decides the error, whatever follows |
| CommandLine.NoOptionErrorIffAllAccepted | Cowboy.TcpLika/TcpLikaCommandLine.cs:69-176 | the option loop raises no error exactly when every option is accepted on its own |
| CommandLine.FirstRejectedOptionDecides | Cowboy.TcpLika/TcpLikaCommandLine.cs:69-176 | the first rejected option decides the error, whatever options follow |
| CommandLine.AssignWritesOnlyItsField | Cowboy.TcpLika/TcpLikaCommandLine.cs:77-176 | an option sets its own flag and value and leaves every other flag, value and the endpoints unchanged |
| CommandLine.ConfiguredByLastOption | Cowboy.TcpLika/TcpLikaCommandLine.cs:69-176 | after the option loop, each option is set exactly when a key of its kind was given. An integer holds the last such value, which parses and is at least 1; an unset one keeps its initial value. Nagle is on exactly when its last value upper-cases to `ON`, and that value upper-cases to `ON` or `OFF`; without one it keeps the initial configuration's value. No endpoints yet |
| CommandLine.LastValueIsLast | Cowboy.TcpLika/TcpLikaCommandLine.cs:69 | the value taken for a kind is that of the last key of that kind |
| CommandLine.ParseOptions | Cowboy.TcpLika/TcpLikaCommandLine.cs:59-205 | the resolver returns exactly what `Resolve` specifies. A null lexer result gives the missing-endpoint error, then the first rejected option, then the first bad endpoint, otherwise the configuration with its endpoints |
| CommandLine.ParseArguments | Cowboy.TcpLika/TcpLikaCommandLine.cs:65-178 | the option loop fails with the first option error, or returns the configuration the options build from the initial one |
| CommandLine.ApplyOption | Cowboy.TcpLika/TcpLikaCommandLine.cs:77-176 | one option is rejected with its kind's error, or writes its kind's flag and value |
| CommandLine.AppendEndPoints | Cowboy.TcpLika/TcpLikaCommandLine.cs:180-202 | the endpoint loop fails with an endpoint error for the first bad argument, or appends one endpoint per argument in order |
| CommandLine.ValidateOptions | Cowboy.TcpLika/TcpLikaCommandLine.cs:207-217 | validation passes exactly when help or version is set or an endpoint exists, and otherwise fails with the missing-endpoint error |
| CommandLine.NagleIgnoresCase | Cowboy.TcpLika/TcpLikaCommandLine.cs:92-101 | Nagle accepts exactly the 12 case spellings of `on` and `off`, sets its flag, and is on exactly for a spelling of `on` |
| CommandLine.IntegerOptionValue | Cowboy.TcpLika/TcpLikaCommandLine.cs:79-165 | an integer option with the decimal text of a 32-bit integer n is accepted exactly when n ≥ 1, otherwise it fails with its own invalid-value error; when accepted it sets its flag and holds n |
| CommandLine.IntegerOptionOverflow | Cowboy.TcpLika/TcpLikaCommandLine.cs:79-165 | an integer option given the decimal text of a number outside the 32-bit range is rejected with its own invalid-value error |
| CommandLine.FlagIgnoresValue | Cowboy.TcpLika/TcpLikaCommandLine.cs:167-175 | web socket, help and version accept any value, set their flag, and do not depend on the value |
| CommandLine.ResolveSucceedsIff | Cowboy.TcpLika/TcpLikaCommandLine.cs:59-205 | resolution succeeds exactly when every option is accepted and every positional argument is an endpoint |
| CommandLine.ResolveStopsAtFirstRejectedOption | Cowboy.TcpLika/TcpLikaCommandLine.cs:69-165 | the first rejected option is the resolution error, before any endpoint is read |
| CommandLine.UnrecognizedKeyFails | Cowboy.TcpLika/TcpLikaCommandLine.cs:71-75 | with every earlier option accepted, a key of unknown kind fails resolution with an error naming that key |
| CommandLine.ResolveStopsAtFirstBadEndPoint | Cowboy.TcpLika/TcpLikaCommandLine.cs:180-201 | with the options accepted, the first positional argument that is not an endpoint fails resolution with an endpoint error carrying its cause |
| CommandLine.ResolvedOptions | Cowboy.TcpLika/TcpLikaCommandLine.cs:69-176 | in a resolved configuration an option is set exactly when a key of its kind was given, and integers come from the last such value and are ≥ 1. Nagle's last value is one of the 12 spellings and Nagle is on exactly for a spelling of `on`; it keeps the initial configuration's value when Nagle was not given |
| CommandLine.ResolvedEndPoints | Cowboy.TcpLika/TcpLikaCommandLine.cs:180-196 | a resolved configuration has one endpoint per positional argument, in order, duplicates kept |
| CommandLine.ResolvedInRange | Cowboy.TcpLika/TcpLikaCommandLine.cs:79-194 | every resolved configuration has integer options ≥ 1 when set and ports in 0..65535 |
| CommandLine.MissingEndPointEitherWay | Cowboy.TcpLika/TcpLikaCommandLine.cs:207-217 | with every option accepted, neither help nor version and no positional argument, the run fails with the same missing-endpoint error as a null lexer result |
| CommandLine.HelpComesFirst | Cowboy.TcpLika/TcpLikaCommandLine.cs:28-30 | when resolution succeeds, a help key makes the run show the usage and terminate, even with a version key or no endpoint |
| CommandLine.VersionComesSecond | Cowboy.TcpLika/TcpLikaCommandLine.cs:32-35 | when resolution succeeds and there is no help key, a version key shows the version and terminates |
| CommandLine.EngineStartsWhenReady | Cowboy.TcpLika/TcpLikaCommandLine.cs:36-39 | with resolution succeeding, no help or version key and at least one positional argument, the run's first event invokes the engine on the resolved configuration |
| CommandLine.EngineStartsOnlyWhenReady | Cowboy.TcpLika/TcpLikaCommandLine.cs:36-39 | the engine is invoked only on the resolved configuration, with no help or version key, at least one endpoint (one per positional argument), and values in range |
| CommandLine.TerminatesAfterEveryBranch | Cowboy.TcpLika/TcpLikaCommandLine.cs:25-41 | a run past validation ends with exactly one termination, as its last event; a run that does not fails with the resolution error or the missing endpoint |
| CommandLine.TcpLikaCommandLine.Execute | Cowboy.TcpLika/TcpLikaCommandLine.cs:19-42 | Execute raises the events of `Run` after those already raised, or lets the error escape with nothing raised. It stores the resolved configuration when resolution succeeds, even if validation then fails |
| CommandLine.TcpLikaCommandLine.StartEngine | Cowboy.TcpLika/TcpLikaCommandLine.cs:44-56 | starting the engine raises "engine invoked" (the attempt: it is raised before the engine is constructed) with the stored configuration, then the message of a command-line exception the engine throws |
| CommandLine.TcpLikaCommandLine.constructor | Cowboy.TcpLika/TcpLikaCommandLine.cs:12-17 | a new command line holds no configuration and has raised nothing |

## Left out

- `base.Execute()` (line 21) and the `CommandLine` base class: not part of this model.
- `CommandLineParser.Parse` and `TcpLikaOptions.GetSingleOptions` (lines 23-24): the lexer's result is a parameter of `Execute`.
- The constructor's `args`: they only reach the lexer, which is not part of this model.
- `TcpLikaOptions.GetOptionType` (line 71): a function-valued parameter, the catalog.
- `TcpLikaOptions.Usage` and `this.Version`: the texts are not modelled. Only the fact that usage or version is shown is modelled.
- `IPAddress.Parse` (line 191): a function-valued parameter. Which texts are addresses is not modelled.
- `TcpLikaEngine` and `engine.Start()` (lines 48-50): not part of this model. A parameter gives the message of the `CommandLineException` the engine throws for a configuration, if any. Other exceptions of the engine are not modelled.
- The log callback with its `DateTime.Now` time stamp (line 49): clock and output.
- Message texts and culture-specific formatting: errors are told apart by a datatype.
- How `RaiseCommandLineUsage`, `RaiseCommandLineException` and `Terminate` render their output or end the process: each becomes an event in `raised`.
- `TimeSpan.FromMilliseconds` (lines 151, 164): durations are kept as integer milliseconds.
- Defaults of `TcpLikaCommandLineOptions`: its class is not part of this model. The initial configuration uses the CLR zero values (false, 0, no endpoints). The lemmas say only that an unset option keeps the initial value, never what that value is.
- `TcpLikaCommandLineOptions` is a mutable object in the code. In the model it is a value updated in a local variable of the resolver. The code's object is freshly created, never shared, and returned only at the end, so aliasing of it is not captured.
- CommandLine.ApplyOption: writes an option's `IsSet…` flag together with its value after the value is accepted, rather than before the check. On a rejected value the code throws and the half-written object is dropped, so the difference is not observable.
- Null option values: the lexer is taken to deliver a string for every key. A null Nagle value, for which the code's `ToString()` would throw, is not modelled.
- Text.ToUpperInvariant: maps only the ASCII letters a-z and leaves every other character unchanged. Culture-invariant mapping of non-ASCII letters is not modelled.
- Text.ParseInt: follows `NumberStyles.Integer` with `+` and `-` as the sign symbols, white space `\t`..`\r` and space. Trailing NUL characters, which .NET also skips, and culture-specific sign symbols are not modelled.
- Order of the option keys: the lexer's dictionary order is the order of the `arguments` sequence.

