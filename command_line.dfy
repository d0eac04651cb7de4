/**
 * TcpLikaCommandLine: resolving the lexer's output into a run configuration
 * (ParseOptions), checking it (ValidateOptions) and choosing what to do with it
 * (Execute). The option catalog (TcpLikaOptions.GetOptionType) and the address
 * parser (IPAddress.Parse) are parameters.
 */
module CommandLine {
  import opened Wrappers
  import opened Text
  import opened Options
  import opened EndPoints

  // ---------------------------------------------------------------------------
  // The specification of option resolution
  // ---------------------------------------------------------------------------

  /**
   * The error an option of this kind raises, or None when it is accepted: an unknown
   * key, an integer option whose value is not an integer of at least 1, a Nagle value
   * other than ON or OFF in any case. Switches accept any value.
   */
  function KindError(kind: OptionKind, key: string, value: string): (r: Option<CommandLineError>)
  {
    if kind == Unrecognized then Some(UnrecognizedOption(key))
    else if kind == Nagle then
      var nagle := ToUpperInvariant(value);
      if nagle == "ON" || nagle == "OFF" then None else Some(InvalidValue(Nagle, value))
    else if kind.IsInteger() then
      var n := ParseInt(value);
      if n.Some? && n.value >= 1 then None else Some(InvalidValue(kind, value))
    else None
  }

  /** The error one option raises, with the kind the catalog gives its key. */
  function EntryError(catalog: string -> OptionKind, key: string, value: string): (r: Option<CommandLineError>)
  {
    KindError(catalog(key), key, value)
  }

  /** The error of the first option that raises one, or None when every option is accepted. */
  function FirstOptionError(catalog: string -> OptionKind, arguments: seq<(string, string)>): (r: Option<CommandLineError>)
  {
    if arguments == [] then None
    else
      match FirstOptionError(catalog, arguments[..|arguments| - 1])
      case Some(e) => Some(e)
      case None => EntryError(catalog, arguments[|arguments| - 1].0, arguments[|arguments| - 1].1)
  }

  /** The integer a value denotes, or `otherwise` when it denotes none. */
  function IntSetting(value: string, otherwise: int): (r: int)
  {
    match ParseInt(value)
    case Some(n) => n
    case None => otherwise
  }

  /** The effect of one option on the configuration: the flag and the field of its kind. */
  function Assign(options: TcpLikaCommandLineOptions, kind: OptionKind, value: string): (r: TcpLikaCommandLineOptions)
  {
    match kind
    case Threads => options.(isSetThreads := true, threads := IntSetting(value, options.threads))
    case Nagle => options.(isSetNagle := true, nagle := ToUpperInvariant(value) == "ON")
    case ReceiveBufferSize =>
      options.(isSetReceiveBufferSize := true, receiveBufferSize := IntSetting(value, options.receiveBufferSize))
    case SendBufferSize =>
      options.(isSetSendBufferSize := true, sendBufferSize := IntSetting(value, options.sendBufferSize))
    case Connections => options.(isSetConnections := true, connections := IntSetting(value, options.connections))
    case ConnectTimeout =>
      options.(isSetConnectTimeout := true, connectTimeout := IntSetting(value, options.connectTimeout))
    case ConnectionLifetime =>
      options.(isSetChannelLifetime := true, channelLifetime := IntSetting(value, options.channelLifetime))
    case WebSocket => options.(isSetWebSocket := true)
    case Help => options.(isSetHelp := true)
    case Version => options.(isSetVersion := true)
    case Unrecognized => options
  }

  /** The configuration the options build, one after the other, from the initial one. No endpoints yet. */
  function Configured(catalog: string -> OptionKind, arguments: seq<(string, string)>): (r: TcpLikaCommandLineOptions)
  {
    if arguments == [] then Initial
    else
      var last := arguments[|arguments| - 1];
      Assign(Configured(catalog, arguments[..|arguments| - 1]), catalog(last.0), last.1)
  }

  /** The value of the last option whose key the catalog maps to `kind`. */
  function LastValue(catalog: string -> OptionKind, arguments: seq<(string, string)>, kind: OptionKind): (r: Option<string>)
  {
    if arguments == [] then None
    else if catalog(arguments[|arguments| - 1].0) == kind then Some(arguments[|arguments| - 1].1)
    else LastValue(catalog, arguments[..|arguments| - 1], kind)
  }

  /**
   * What resolution yields: a missing lexer result, the first rejected option, or the
   * first positional argument that is not an endpoint is an error; otherwise the
   * configured options with one endpoint per positional argument.
   */
  function Resolve(commandLineOptions: Option<CommandLineOptions>, catalog: string -> OptionKind,
                   parseAddress: string -> Option<IPAddress>): (r: Result<TcpLikaCommandLineOptions, CommandLineError>)
  {
    match commandLineOptions
    case None => Failure(MissingEndPoint)
    case Some(c) =>
      match FirstOptionError(catalog, c.arguments)
      case Some(e) => Failure(e)
      case None =>
        match ParseEndPoints(parseAddress, c.parameters)
        case Failure(e) => Failure(InvalidEndPoints(e))
        case Success(endPoints) => Success(Configured(catalog, c.arguments).(remoteEndPoints := endPoints))
  }

  // ---------------------------------------------------------------------------
  // Lemmas about the specification
  // ---------------------------------------------------------------------------

  /** Resolution of the options succeeds exactly when every option is accepted. */
  lemma {:induction false} NoOptionErrorIffAllAccepted(catalog: string -> OptionKind, arguments: seq<(string, string)>)
    ensures FirstOptionError(catalog, arguments) == None <==>
      forall i :: 0 <= i < |arguments| ==> EntryError(catalog, arguments[i].0, arguments[i].1) == None
    decreases |arguments|
  {
    if arguments != [] {
      var front := arguments[..|arguments| - 1];
      NoOptionErrorIffAllAccepted(catalog, front);
      assert forall i :: 0 <= i < |front| ==> front[i] == arguments[i];
    }
  }

  /** Fail-fast: the first rejected option decides the error, whatever follows it. */
  lemma {:induction false} FirstRejectedOptionDecides(catalog: string -> OptionKind, arguments: seq<(string, string)>, i: nat)
    requires i < |arguments|
    requires FirstOptionError(catalog, arguments[..i]) == None
    requires EntryError(catalog, arguments[i].0, arguments[i].1).Some?
    ensures FirstOptionError(catalog, arguments) == EntryError(catalog, arguments[i].0, arguments[i].1)
    decreases |arguments|
  {
    var front := arguments[..|arguments| - 1];
    if i < |arguments| - 1 {
      assert front[..i] == arguments[..i];
      FirstRejectedOptionDecides(catalog, front, i);
    } else {
      assert front == arguments[..i];
    }
  }

  /**
   * An option writes its own flag and field and nothing else; a switch sets its flag
   * without looking at its value.
   */
  lemma AssignWritesOnlyItsField(options: TcpLikaCommandLineOptions, kind: OptionKind, value: string, other: OptionKind)
    ensures var after := Assign(options, kind, value);
            && after.remoteEndPoints == options.remoteEndPoints
            && (kind != Unrecognized ==> after.IsSet(kind))
            && (kind.IsInteger() && ParseInt(value).Some? ==> after.IntValue(kind) == ParseInt(value).value)
            && (kind == Nagle ==> after.nagle == (ToUpperInvariant(value) == "ON"))
            && (other != kind ==> after.IsSet(other) == options.IsSet(other))
            && (other != kind && other.IsInteger() ==> after.IntValue(other) == options.IntValue(other))
            && (kind != Nagle ==> after.nagle == options.nagle)
  {
  }

  /** Appending an option changes the last value of its own kind only. */
  lemma LastValueSnoc(catalog: string -> OptionKind, arguments: seq<(string, string)>, key: string, value: string, kind: OptionKind)
    ensures LastValue(catalog, arguments + [(key, value)], kind) ==
      if catalog(key) == kind then Some(value) else LastValue(catalog, arguments, kind)
  {
    assert (arguments + [(key, value)])[..|arguments|] == arguments;
  }

  /**
   * When every option is accepted, each field of the configuration comes from the last
   * option of its kind, and a field with no option keeps its initial value and stays unset.
   */
  lemma {:induction false} ConfiguredByLastOption(catalog: string -> OptionKind, arguments: seq<(string, string)>, kind: OptionKind)
    requires kind != Unrecognized
    requires FirstOptionError(catalog, arguments) == None
    ensures var options := Configured(catalog, arguments);
            var last := LastValue(catalog, arguments, kind);
            && options.remoteEndPoints == []
            && (options.IsSet(kind) <==> last.Some?)
            && (kind.IsInteger() && last.None? ==> options.IntValue(kind) == Initial.IntValue(kind))
            && (kind.IsInteger() && last.Some? ==> ParseInt(last.value) == Some(options.IntValue(kind)) && options.IntValue(kind) >= 1)
            && (kind == Nagle && last.Some? ==> options.nagle == (ToUpperInvariant(last.value) == "ON"))
            && (kind == Nagle && last.None? ==> options.nagle == Initial.nagle)
            && (kind == Nagle && last.Some? ==> ToUpperInvariant(last.value) in {"ON", "OFF"})
    decreases |arguments|
  {
    if arguments != [] {
      var front := arguments[..|arguments| - 1];
      var (key, value) := arguments[|arguments| - 1];
      assert arguments == front + [(key, value)];
      ConfiguredByLastOption(catalog, front, kind);
      LastValueSnoc(catalog, front, key, value, kind);
      AssignWritesOnlyItsField(Configured(catalog, front), catalog(key), value, kind);
    }
  }

  /** The last value of a kind is the value of the last option of that kind. */
  lemma {:induction false} LastValueIsLast(catalog: string -> OptionKind, arguments: seq<(string, string)>, kind: OptionKind, i: nat)
    requires i < |arguments| && catalog(arguments[i].0) == kind
    requires forall j :: i < j < |arguments| ==> catalog(arguments[j].0) != kind
    ensures LastValue(catalog, arguments, kind) == Some(arguments[i].1)
    decreases |arguments|
  {
    if i < |arguments| - 1 {
      LastValueIsLast(catalog, arguments[..|arguments| - 1], kind, i);
    }
  }

  /** A kind has no last value exactly when no option has that kind. */
  lemma {:induction false} LastValueAbsent(catalog: string -> OptionKind, arguments: seq<(string, string)>, kind: OptionKind)
    ensures LastValue(catalog, arguments, kind).None? <==>
      forall i :: 0 <= i < |arguments| ==> catalog(arguments[i].0) != kind
    decreases |arguments|
  {
    if arguments != [] {
      var front := arguments[..|arguments| - 1];
      LastValueAbsent(catalog, front, kind);
      assert forall i :: 0 <= i < |front| ==> front[i] == arguments[i];
    }
  }

  /** One more option: the configuration takes its effect, and its own check decides whether resolution goes on. */
  lemma ArgumentsStep(catalog: string -> OptionKind, arguments: seq<(string, string)>, i: nat)
    requires i < |arguments|
    ensures Configured(catalog, arguments[..i + 1]) ==
      Assign(Configured(catalog, arguments[..i]), catalog(arguments[i].0), arguments[i].1)
    ensures FirstOptionError(catalog, arguments[..i]) == None ==>
      FirstOptionError(catalog, arguments[..i + 1]) == EntryError(catalog, arguments[i].0, arguments[i].1)
  {
    assert arguments[..i + 1][..i] == arguments[..i];
  }

  // ---------------------------------------------------------------------------
  // ParseOptions
  // ---------------------------------------------------------------------------

  /**
   * Resolves the lexer's output: builds the configuration option by option, then
   * appends one endpoint per positional argument, stopping at the first bad input.
   */
  method ParseOptions(commandLineOptions: Option<CommandLineOptions>, catalog: string -> OptionKind,
                      parseAddress: string -> Option<IPAddress>)
    returns (r: Result<TcpLikaCommandLineOptions, CommandLineError>)
    ensures r == Resolve(commandLineOptions, catalog, parseAddress)
  {
    if commandLineOptions.None? {
      return Failure(MissingEndPoint);
    }
    var configured := ParseArguments(commandLineOptions.value.arguments, catalog);
    if configured.Failure? {
      return configured;
    }
    ConfiguredByLastOption(catalog, commandLineOptions.value.arguments, Threads);
    r := AppendEndPoints(configured.value, commandLineOptions.value.parameters, parseAddress);
    if r.Success? {
      assert [] + ParseEndPoints(parseAddress, commandLineOptions.value.parameters).value
        == ParseEndPoints(parseAddress, commandLineOptions.value.parameters).value;
    }
  }

  /** The loop over the option keys: each option checked, then written into the configuration. */
  method ParseArguments(arguments: seq<(string, string)>, catalog: string -> OptionKind)
    returns (r: Result<TcpLikaCommandLineOptions, CommandLineError>)
    ensures FirstOptionError(catalog, arguments).Some? ==> r == Failure(FirstOptionError(catalog, arguments).value)
    ensures FirstOptionError(catalog, arguments).None? ==> r == Success(Configured(catalog, arguments))
  {
    var options := Initial;
    var i := 0;
    while i < |arguments|
      invariant i <= |arguments|
      invariant FirstOptionError(catalog, arguments[..i]) == None
      invariant options == Configured(catalog, arguments[..i])
    {
      var (arg, value) := arguments[i];
      ArgumentsStep(catalog, arguments, i);
      var applied := ApplyOption(options, catalog(arg), arg, value);
      if applied.Failure? {
        FirstRejectedOptionDecides(catalog, arguments, i);
        return applied;
      }
      options := applied.value;
      i := i + 1;
    }
    assert arguments[..i] == arguments;
    return Success(options);
  }

  /** The body of that loop: one option, of the kind the catalog gave its key, checked and written. */
  method ApplyOption(options: TcpLikaCommandLineOptions, optionType: OptionKind, arg: string, value: string)
    returns (r: Result<TcpLikaCommandLineOptions, CommandLineError>)
    ensures KindError(optionType, arg, value).Some? ==> r == Failure(KindError(optionType, arg, value).value)
    ensures KindError(optionType, arg, value).None? ==> r == Success(Assign(options, optionType, value))
  {
    var options := options;
    // The flag and the value are written together once the value is accepted: on a
    // rejected value the configuration is abandoned, so the earlier flag write of the
    // switch is not observable.
    match optionType {
      case Unrecognized =>
        return Failure(UnrecognizedOption(arg));
      case Threads =>
        var threads := ParseInt(value);
        if threads.None? || threads.value < 1 {
          return Failure(InvalidValue(Threads, value));
        }
        options := options.(isSetThreads := true, threads := threads.value);
      case Nagle =>
        var nagle := ToUpperInvariant(value);
        if nagle != "ON" && nagle != "OFF" {
          return Failure(InvalidValue(Nagle, value));
        }
        options := options.(isSetNagle := true, nagle := nagle == "ON");
      case ReceiveBufferSize =>
        var bufferSize := ParseInt(value);
        if bufferSize.None? || bufferSize.value < 1 {
          return Failure(InvalidValue(ReceiveBufferSize, value));
        }
        options := options.(isSetReceiveBufferSize := true, receiveBufferSize := bufferSize.value);
      case SendBufferSize =>
        var bufferSize := ParseInt(value);
        if bufferSize.None? || bufferSize.value < 1 {
          return Failure(InvalidValue(SendBufferSize, value));
        }
        options := options.(isSetSendBufferSize := true, sendBufferSize := bufferSize.value);
      case Connections =>
        var connections := ParseInt(value);
        if connections.None? || connections.value < 1 {
          return Failure(InvalidValue(Connections, value));
        }
        options := options.(isSetConnections := true, connections := connections.value);
      case ConnectTimeout =>
        var milliseconds := ParseInt(value);
        if milliseconds.None? || milliseconds.value < 1 {
          return Failure(InvalidValue(ConnectTimeout, value));
        }
        options := options.(isSetConnectTimeout := true, connectTimeout := milliseconds.value);
      case ConnectionLifetime =>
        var milliseconds := ParseInt(value);
        if milliseconds.None? || milliseconds.value < 1 {
          return Failure(InvalidValue(ConnectionLifetime, value));
        }
        options := options.(isSetChannelLifetime := true, channelLifetime := milliseconds.value);
      case WebSocket =>
        options := options.(isSetWebSocket := true);
      case Help =>
        options := options.(isSetHelp := true);
      case Version =>
        options := options.(isSetVersion := true);
    }
    return Success(options);
  }

  /** The loop over the positional arguments: each one read as `<host:port>` and appended. */
  method AppendEndPoints(options: TcpLikaCommandLineOptions, parameters: seq<string>, parseAddress: string -> Option<IPAddress>)
    returns (r: Result<TcpLikaCommandLineOptions, CommandLineError>)
    ensures ParseEndPoints(parseAddress, parameters).Failure? ==>
      r == Failure(InvalidEndPoints(ParseEndPoints(parseAddress, parameters).error))
    ensures ParseEndPoints(parseAddress, parameters).Success? ==>
      r == Success(options.(remoteEndPoints := options.remoteEndPoints + ParseEndPoints(parseAddress, parameters).value))
  {
    var remoteEndPoints := options.remoteEndPoints;
    ghost var appended: seq<EndPoint> := [];
    var j := 0;
    while j < |parameters|
      invariant j <= |parameters|
      invariant ParseEndPoints(parseAddress, parameters[..j]) == Success(appended)
      invariant remoteEndPoints == options.remoteEndPoints + appended
    {
      var item := parameters[j];
      assert parameters[..j + 1][..j] == parameters[..j];
      var endPoint := ParseEndPoint(parseAddress, item);
      if endPoint.Failure? {
        EndPointsFailAt(parseAddress, parameters, j);
        return Failure(InvalidEndPoints(endPoint.error));
      }
      remoteEndPoints := remoteEndPoints + [endPoint.value];
      appended := appended + [endPoint.value];
      j := j + 1;
    }
    assert parameters[..j] == parameters;
    return Success(options.(remoteEndPoints := remoteEndPoints));
  }

  // ---------------------------------------------------------------------------
  // ValidateOptions and the dispatch of Execute
  // ---------------------------------------------------------------------------

  /** A resolved configuration is refused when it asks for neither help nor version and names no endpoint. */
  function ValidateOptions(options: TcpLikaCommandLineOptions): (r: Outcome<CommandLineError>)
    ensures r.Pass? <==> options.Runnable()
    ensures r.Fail? ==> r.error == MissingEndPoint
  {
    if options.isSetHelp || options.isSetVersion then Pass
    else if options.remoteEndPoints == [] then Fail(MissingEndPoint)
    else Pass
  }

  /** What Execute hands to its host, in order. */
  datatype Event =
    | ShowUsage                                    // the usage text is raised
    | ShowVersion                                  // the version text is raised
    | EngineInvoked(options: TcpLikaCommandLineOptions)  // an engine is constructed and started: the attempt, not its success
    | EngineFailed(message: string)                // a CommandLineException of the engine, raised
    | Terminated

  /**
   * The events of a validated configuration: help before version before the engine,
   * and termination after whichever ran. `engineFailure` is the message of the
   * CommandLineException the engine throws for a configuration, if it throws one.
   */
  function Dispatch(options: TcpLikaCommandLineOptions, engineFailure: TcpLikaCommandLineOptions -> Option<string>): (r: seq<Event>)
  {
    if options.isSetHelp then [ShowUsage, Terminated]
    else if options.isSetVersion then [ShowVersion, Terminated]
    else
      match engineFailure(options)
      case None => [EngineInvoked(options), Terminated]
      case Some(message) => [EngineInvoked(options), EngineFailed(message), Terminated]
  }

  /**
   * What Execute does with a lexer result: the events it raises, or the error that
   * escapes it when resolution or validation throws.
   */
  function Run(commandLineOptions: Option<CommandLineOptions>, catalog: string -> OptionKind,
               parseAddress: string -> Option<IPAddress>,
               engineFailure: TcpLikaCommandLineOptions -> Option<string>): (r: Result<seq<Event>, CommandLineError>)
  {
    match Resolve(commandLineOptions, catalog, parseAddress)
    case Failure(e) => Failure(e)
    case Success(options) =>
      match ValidateOptions(options)
      case Fail(e) => Failure(e)
      case Pass => Success(Dispatch(options, engineFailure))
  }

  // ---------------------------------------------------------------------------
  // Properties of single options
  // ---------------------------------------------------------------------------

  /** Nagle takes ON or OFF in any mix of cases, and is on exactly for a spelling of ON. */
  lemma NagleIgnoresCase(options: TcpLikaCommandLineOptions, key: string, value: string)
    ensures KindError(Nagle, key, value) == None <==>
      value in {"ON", "On", "oN", "on", "OFF", "OFf", "OfF", "Off", "oFF", "oFf", "ofF", "off"}
    ensures Assign(options, Nagle, value).isSetNagle
    ensures Assign(options, Nagle, value).nagle <==> value in {"ON", "On", "oN", "on"}
  {
    UpperIsOn(value);
    UpperIsOff(value);
  }

  /**
   * An integer option given the decimal text of a 32-bit integer n is accepted exactly
   * when n is at least 1, and then sets its own flag and holds n.
   */
  lemma IntegerOptionValue(options: TcpLikaCommandLineOptions, kind: OptionKind, key: string, n: int)
    requires kind.IsInteger() && Int32Min <= n <= Int32Max
    ensures KindError(kind, key, FormatInt(n)) == None <==> n >= 1
    ensures KindError(kind, key, FormatInt(n)) != None ==> KindError(kind, key, FormatInt(n)) == Some(InvalidValue(kind, FormatInt(n)))
    ensures var after := Assign(options, kind, FormatInt(n));
            after.IsSet(kind) && after.IntValue(kind) == n
  {
    ParseFormatInt(n);
    AssignWritesOnlyItsField(options, kind, FormatInt(n), kind);
  }

  /** An integer option given the decimal text of a number outside the 32-bit range is rejected. */
  lemma IntegerOptionOverflow(kind: OptionKind, key: string, n: int)
    requires kind.IsInteger() && (n < Int32Min || n > Int32Max)
    ensures KindError(kind, key, FormatInt(n)) == Some(InvalidValue(kind, FormatInt(n)))
  {
    ParseFormatIntOutOfRange(n);
  }

  /** A switch accepts any value and sets its flag the same way whatever the value. */
  lemma FlagIgnoresValue(options: TcpLikaCommandLineOptions, kind: OptionKind, key: string, value: string, other: string)
    requires kind.IsFlag()
    ensures KindError(kind, key, value) == None
    ensures Assign(options, kind, value) == Assign(options, kind, other)
    ensures Assign(options, kind, value).IsSet(kind)
  {
  }

  // ---------------------------------------------------------------------------
  // Properties of resolution
  // ---------------------------------------------------------------------------

  /** Resolution succeeds exactly when every option is accepted and every positional argument is an endpoint. */
  lemma ResolveSucceedsIff(c: CommandLineOptions, catalog: string -> OptionKind, parseAddress: string -> Option<IPAddress>)
    ensures Resolve(Some(c), catalog, parseAddress).Success? <==>
      && (forall i :: 0 <= i < |c.arguments| ==> EntryError(catalog, c.arguments[i].0, c.arguments[i].1) == None)
      && (forall k :: 0 <= k < |c.parameters| ==> ParseEndPoint(parseAddress, c.parameters[k]).Success?)
  {
    NoOptionErrorIffAllAccepted(catalog, c.arguments);
    if ParseEndPoints(parseAddress, c.parameters).Success? {
      EndPointsInOrder(parseAddress, c.parameters);
    }
    if forall k :: 0 <= k < |c.parameters| ==> ParseEndPoint(parseAddress, c.parameters[k]).Success? {
      EndPointsAllAccepted(parseAddress, c.parameters);
    }
  }

  /** The first rejected option is the error, whatever options and positional arguments follow. */
  lemma ResolveStopsAtFirstRejectedOption(c: CommandLineOptions, catalog: string -> OptionKind,
                                          parseAddress: string -> Option<IPAddress>, i: nat)
    requires i < |c.arguments|
    requires forall j :: 0 <= j < i ==> EntryError(catalog, c.arguments[j].0, c.arguments[j].1) == None
    requires EntryError(catalog, c.arguments[i].0, c.arguments[i].1).Some?
    ensures Resolve(Some(c), catalog, parseAddress) == Failure(EntryError(catalog, c.arguments[i].0, c.arguments[i].1).value)
  {
    var front := c.arguments[..i];
    NoOptionErrorIffAllAccepted(catalog, front);
    assert forall j :: 0 <= j < |front| ==> front[j] == c.arguments[j];
    FirstRejectedOptionDecides(catalog, c.arguments, i);
  }

  /** A key the catalog does not know fails resolution, naming that key. */
  lemma UnrecognizedKeyFails(c: CommandLineOptions, catalog: string -> OptionKind,
                             parseAddress: string -> Option<IPAddress>, i: nat)
    requires i < |c.arguments|
    requires forall j :: 0 <= j < i ==> EntryError(catalog, c.arguments[j].0, c.arguments[j].1) == None
    requires catalog(c.arguments[i].0) == Unrecognized
    ensures Resolve(Some(c), catalog, parseAddress) == Failure(UnrecognizedOption(c.arguments[i].0))
  {
    ResolveStopsAtFirstRejectedOption(c, catalog, parseAddress, i);
  }

  /** Once the options are accepted, the first positional argument that is not an endpoint is the error. */
  lemma ResolveStopsAtFirstBadEndPoint(c: CommandLineOptions, catalog: string -> OptionKind,
                                       parseAddress: string -> Option<IPAddress>, j: nat)
    requires forall i :: 0 <= i < |c.arguments| ==> EntryError(catalog, c.arguments[i].0, c.arguments[i].1) == None
    requires j < |c.parameters|
    requires forall k :: 0 <= k < j ==> ParseEndPoint(parseAddress, c.parameters[k]).Success?
    requires ParseEndPoint(parseAddress, c.parameters[j]).Failure?
    ensures Resolve(Some(c), catalog, parseAddress) ==
      Failure(InvalidEndPoints(ParseEndPoint(parseAddress, c.parameters[j]).error))
  {
    NoOptionErrorIffAllAccepted(catalog, c.arguments);
    var front := c.parameters[..j];
    assert forall k :: 0 <= k < |front| ==> front[k] == c.parameters[k];
    EndPointsAllAccepted(parseAddress, front);
    EndPointsFailAt(parseAddress, c.parameters, j);
  }

  /**
   * A resolved configuration takes each option from the last option of its kind: an
   * option is set exactly when some key of its kind was given; an integer holds that
   * key's value, which is at least 1; Nagle is ON or OFF in any case and is on for ON.
   */
  lemma ResolvedOptions(c: CommandLineOptions, catalog: string -> OptionKind,
                        parseAddress: string -> Option<IPAddress>, kind: OptionKind)
    requires Resolve(Some(c), catalog, parseAddress).Success?
    requires kind != Unrecognized
    ensures var options := Resolve(Some(c), catalog, parseAddress).value;
            var last := LastValue(catalog, c.arguments, kind);
            && (options.IsSet(kind) <==> exists i :: 0 <= i < |c.arguments| && catalog(c.arguments[i].0) == kind)
            && (options.IsSet(kind) <==> last.Some?)
            && (kind.IsInteger() && last.Some? ==> ParseInt(last.value) == Some(options.IntValue(kind)) && options.IntValue(kind) >= 1)
            && (kind.IsInteger() && last.None? ==> options.IntValue(kind) == Initial.IntValue(kind))
            && (kind == Nagle && last.Some? ==>
                  && last.value in {"ON", "On", "oN", "on", "OFF", "OFf", "OfF", "Off", "oFF", "oFf", "ofF", "off"}
                  && (options.nagle <==> last.value in {"ON", "On", "oN", "on"}))
            && (kind == Nagle && last.None? ==> options.nagle == Initial.nagle)
  {
    ConfiguredByLastOption(catalog, c.arguments, kind);
    LastValueAbsent(catalog, c.arguments, kind);
    var last := LastValue(catalog, c.arguments, kind);
    if last.Some? {
      UpperIsOn(last.value);
      UpperIsOff(last.value);
    }
  }

  /**
   * A resolved configuration has one endpoint per positional argument, in order and
   * with duplicates kept, each the reading of its argument.
   */
  lemma ResolvedEndPoints(c: CommandLineOptions, catalog: string -> OptionKind, parseAddress: string -> Option<IPAddress>)
    requires Resolve(Some(c), catalog, parseAddress).Success?
    ensures var endPoints := Resolve(Some(c), catalog, parseAddress).value.remoteEndPoints;
            && |endPoints| == |c.parameters|
            && forall k :: 0 <= k < |c.parameters| ==> ParseEndPoint(parseAddress, c.parameters[k]) == Success(endPoints[k])
  {
    EndPointsInOrder(parseAddress, c.parameters);
  }

  /** Every resolved configuration holds integer options of at least 1 and ports in range. */
  lemma ResolvedInRange(c: CommandLineOptions, catalog: string -> OptionKind, parseAddress: string -> Option<IPAddress>)
    requires Resolve(Some(c), catalog, parseAddress).Success?
    ensures Resolve(Some(c), catalog, parseAddress).value.InRange()
  {
    var options := Resolve(Some(c), catalog, parseAddress).value;
    forall kind: OptionKind | kind.IsInteger() && options.IsSet(kind)
      ensures options.IntValue(kind) >= 1
    {
      ConfiguredByLastOption(catalog, c.arguments, kind);
    }
    ResolvedEndPoints(c, catalog, parseAddress);
  }

  // ---------------------------------------------------------------------------
  // Properties of Execute
  // ---------------------------------------------------------------------------

  /**
   * With neither help nor version asked for and no positional argument, Execute fails
   * with the same error as when the lexer gave no result at all.
   */
  lemma MissingEndPointEitherWay(c: CommandLineOptions, catalog: string -> OptionKind,
                                 parseAddress: string -> Option<IPAddress>,
                                 engineFailure: TcpLikaCommandLineOptions -> Option<string>)
    requires forall i :: 0 <= i < |c.arguments| ==> EntryError(catalog, c.arguments[i].0, c.arguments[i].1) == None
    requires forall i :: 0 <= i < |c.arguments| ==> catalog(c.arguments[i].0) != Help && catalog(c.arguments[i].0) != Version
    requires c.parameters == []
    ensures Run(Some(c), catalog, parseAddress, engineFailure) == Failure(MissingEndPoint)
    ensures Run(None, catalog, parseAddress, engineFailure) == Failure(MissingEndPoint)
  {
    NoOptionErrorIffAllAccepted(catalog, c.arguments);
    ConfiguredByLastOption(catalog, c.arguments, Help);
    LastValueAbsent(catalog, c.arguments, Help);
    ConfiguredByLastOption(catalog, c.arguments, Version);
    LastValueAbsent(catalog, c.arguments, Version);
  }

  /** Help wins: with a help key, Execute shows the usage and terminates, whatever else was given. */
  lemma HelpComesFirst(c: CommandLineOptions, catalog: string -> OptionKind,
                       parseAddress: string -> Option<IPAddress>,
                       engineFailure: TcpLikaCommandLineOptions -> Option<string>, i: nat)
    requires Resolve(Some(c), catalog, parseAddress).Success?
    requires i < |c.arguments| && catalog(c.arguments[i].0) == Help
    ensures Run(Some(c), catalog, parseAddress, engineFailure) == Success([ShowUsage, Terminated])
  {
    ResolvedOptions(c, catalog, parseAddress, Help);
  }

  /** Without a help key, a version key shows the version and terminates, with or without endpoints. */
  lemma VersionComesSecond(c: CommandLineOptions, catalog: string -> OptionKind,
                           parseAddress: string -> Option<IPAddress>,
                           engineFailure: TcpLikaCommandLineOptions -> Option<string>, i: nat)
    requires Resolve(Some(c), catalog, parseAddress).Success?
    requires forall j :: 0 <= j < |c.arguments| ==> catalog(c.arguments[j].0) != Help
    requires i < |c.arguments| && catalog(c.arguments[i].0) == Version
    ensures Run(Some(c), catalog, parseAddress, engineFailure) == Success([ShowVersion, Terminated])
  {
    ResolvedOptions(c, catalog, parseAddress, Help);
    ResolvedOptions(c, catalog, parseAddress, Version);
  }

  /**
   * The engine starts only on the resolved configuration of a command line with
   * neither help nor version keys, at least one endpoint, one per positional
   * argument, and every value in range.
   */
  lemma EngineStartsOnlyWhenReady(c: CommandLineOptions, catalog: string -> OptionKind,
                                  parseAddress: string -> Option<IPAddress>,
                                  engineFailure: TcpLikaCommandLineOptions -> Option<string>,
                                  options: TcpLikaCommandLineOptions)
    requires Run(Some(c), catalog, parseAddress, engineFailure).Success?
    requires EngineInvoked(options) in Run(Some(c), catalog, parseAddress, engineFailure).value
    ensures Resolve(Some(c), catalog, parseAddress) == Success(options)
    ensures forall i :: 0 <= i < |c.arguments| ==> catalog(c.arguments[i].0) != Help && catalog(c.arguments[i].0) != Version
    ensures options.remoteEndPoints != [] && |options.remoteEndPoints| == |c.parameters|
    ensures options.InRange()
  {
    ResolvedOptions(c, catalog, parseAddress, Help);
    ResolvedOptions(c, catalog, parseAddress, Version);
    ResolvedEndPoints(c, catalog, parseAddress);
    ResolvedInRange(c, catalog, parseAddress);
  }

  /**
   * With the configuration resolved, neither help nor version keys and at least one
   * positional argument, the engine is invoked on the resolved configuration.
   */
  lemma EngineStartsWhenReady(c: CommandLineOptions, catalog: string -> OptionKind,
                              parseAddress: string -> Option<IPAddress>,
                              engineFailure: TcpLikaCommandLineOptions -> Option<string>)
    requires Resolve(Some(c), catalog, parseAddress).Success?
    requires forall i :: 0 <= i < |c.arguments| ==> catalog(c.arguments[i].0) != Help && catalog(c.arguments[i].0) != Version
    requires c.parameters != []
    ensures Run(Some(c), catalog, parseAddress, engineFailure).Success?
    ensures Run(Some(c), catalog, parseAddress, engineFailure).value[0] ==
      EngineInvoked(Resolve(Some(c), catalog, parseAddress).value)
  {
    var options := Resolve(Some(c), catalog, parseAddress).value;
    ConfiguredByLastOption(catalog, c.arguments, Help);
    LastValueAbsent(catalog, c.arguments, Help);
    ConfiguredByLastOption(catalog, c.arguments, Version);
    LastValueAbsent(catalog, c.arguments, Version);
    ResolvedEndPoints(c, catalog, parseAddress);
    assert !options.isSetHelp && !options.isSetVersion && options.remoteEndPoints != [];
  }

  /**
   * Every run that gets past validation ends with termination, exactly once; a run
   * that does not reports the resolution error or the missing endpoint.
   */
  lemma TerminatesAfterEveryBranch(commandLineOptions: Option<CommandLineOptions>, catalog: string -> OptionKind,
                                   parseAddress: string -> Option<IPAddress>,
                                   engineFailure: TcpLikaCommandLineOptions -> Option<string>)
    ensures var run := Run(commandLineOptions, catalog, parseAddress, engineFailure);
            && (run.Success? ==>
                  && |run.value| >= 2
                  && run.value[|run.value| - 1] == Terminated
                  && forall k :: 0 <= k < |run.value| - 1 ==> run.value[k] != Terminated)
            && (run.Failure? ==>
                  || Resolve(commandLineOptions, catalog, parseAddress) == Failure(run.error)
                  || run.error == MissingEndPoint)
  {
  }

  /**
   * TcpLikaCommandLine: remembers the resolved configuration (`options`, null until
   * resolution succeeds) and collects what it raises to its host (`raised`).
   */
  class TcpLikaCommandLine {
    var options: Option<TcpLikaCommandLineOptions>
    var raised: seq<Event>

    constructor ()
      ensures options == None && raised == []
    {
      options := None;
      raised := [];
    }

    /**
     * Resolves and validates the lexer's result, then shows the usage, shows the
     * version or starts the engine, and terminates. An error of resolution or
     * validation escapes, before anything is raised and without termination.
     */
    method Execute(commandLineOptions: Option<CommandLineOptions>, catalog: string -> OptionKind,
                   parseAddress: string -> Option<IPAddress>,
                   engineFailure: TcpLikaCommandLineOptions -> Option<string>)
      returns (escaped: Option<CommandLineError>)
      modifies this
      ensures var run := Run(commandLineOptions, catalog, parseAddress, engineFailure);
              && (run.Failure? ==> escaped == Some(run.error) && raised == old(raised))
              && (run.Success? ==> escaped == None && raised == old(raised) + run.value)
      ensures var resolved := Resolve(commandLineOptions, catalog, parseAddress);
              options == if resolved.Success? then Some(resolved.value) else old(options)
    {
      var parsed := ParseOptions(commandLineOptions, catalog, parseAddress);
      if parsed.Failure? {
        return Some(parsed.error);
      }
      options := Some(parsed.value);
      var validated := ValidateOptions(parsed.value);
      if validated.Fail? {
        return Some(validated.error);
      }
      if parsed.value.isSetHelp {
        raised := raised + [ShowUsage];
      } else if parsed.value.isSetVersion {
        raised := raised + [ShowVersion];
      } else {
        StartEngine(engineFailure);
      }
      raised := raised + [Terminated];
      escaped := None;
    }

    /** Starts the engine on the resolved configuration; a CommandLineException it throws is raised. */
    method StartEngine(engineFailure: TcpLikaCommandLineOptions -> Option<string>)
      requires options.Some?
      modifies this
      ensures options == old(options)
      ensures raised == old(raised) + [EngineInvoked(options.value)] +
        match engineFailure(options.value)
        case None => []
        case Some(message) => [EngineFailed(message)]
    {
      raised := raised + [EngineInvoked(options.value)];
      var failure := engineFailure(options.value);
      if failure.Some? {
        raised := raised + [EngineFailed(failure.value)];
      }
    }
  }
}
