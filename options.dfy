/**
 * The values the TcpLika command line works on: the option kinds of the option
 * catalog, the lexer's output, remote endpoints, the run configuration
 * (TcpLikaCommandLineOptions) and the errors that abort resolution.
 */
module Options {

  /**
   * TcpLikaOptionType: what the option catalog makes of an option key.
   * `Unrecognized` is the catalog's `None` for a key it does not know.
   */
  datatype OptionKind =
    | Threads
    | Nagle
    | ReceiveBufferSize
    | SendBufferSize
    | Connections
    | ConnectTimeout
    | ConnectionLifetime
    | WebSocket
    | Help
    | Version
    | Unrecognized
  {
    /** The kinds whose value must be an integer of at least 1. */
    predicate IsInteger()
    {
      Threads? || ReceiveBufferSize? || SendBufferSize? || Connections? || ConnectTimeout? || ConnectionLifetime?
    }

    /** The kinds that are bare switches: their value is never read. */
    predicate IsFlag()
    {
      WebSocket? || Help? || Version?
    }
  }

  /**
   * What the external lexer hands over: the options in the order its dictionary
   * enumerates them, as (key, value) pairs, and the positional arguments in
   * command-line order.
   */
  datatype CommandLineOptions = CommandLineOptions(arguments: seq<(string, string)>, parameters: seq<string>)

  /** An IP address as the address parser produces it: its 4 (IPv4) or 16 (IPv6) bytes. */
  datatype IPAddress = IPAddress(bytes: seq<int>)

  /** The port range IPEndPoint accepts. */
  const MinPort: int := 0
  const MaxPort: int := 0xFFFF

  /** IPEndPoint: a remote address and port. */
  datatype EndPoint = EndPoint(address: IPAddress, port: int)

  /**
   * TcpLikaCommandLineOptions: each scalar option with the flag that says whether
   * the command line supplied it; the two durations in milliseconds.
   */
  datatype TcpLikaCommandLineOptions = TcpLikaCommandLineOptions(
    isSetThreads: bool, threads: int,
    isSetNagle: bool, nagle: bool,
    isSetReceiveBufferSize: bool, receiveBufferSize: int,
    isSetSendBufferSize: bool, sendBufferSize: int,
    isSetConnections: bool, connections: int,
    isSetConnectTimeout: bool, connectTimeout: int,
    isSetChannelLifetime: bool, channelLifetime: int,
    isSetWebSocket: bool,
    isSetHelp: bool,
    isSetVersion: bool,
    remoteEndPoints: seq<EndPoint>)
  {
    /** Whether the option of this kind was supplied. */
    function IsSet(kind: OptionKind): bool
    {
      match kind
      case Threads => isSetThreads
      case Nagle => isSetNagle
      case ReceiveBufferSize => isSetReceiveBufferSize
      case SendBufferSize => isSetSendBufferSize
      case Connections => isSetConnections
      case ConnectTimeout => isSetConnectTimeout
      case ConnectionLifetime => isSetChannelLifetime
      case WebSocket => isSetWebSocket
      case Help => isSetHelp
      case Version => isSetVersion
      case Unrecognized => false
    }

    /** The value held for an integer-valued kind. */
    function IntValue(kind: OptionKind): int
      requires kind.IsInteger()
    {
      match kind
      case Threads => threads
      case ReceiveBufferSize => receiveBufferSize
      case SendBufferSize => sendBufferSize
      case Connections => connections
      case ConnectTimeout => connectTimeout
      case ConnectionLifetime => channelLifetime
    }

    /** Every integer option that was supplied holds at least 1, every port is in range. */
    predicate InRange()
    {
      && (forall kind: OptionKind :: kind.IsInteger() && IsSet(kind) ==> IntValue(kind) >= 1)
      && (forall k :: 0 <= k < |remoteEndPoints| ==> MinPort <= remoteEndPoints[k].port <= MaxPort)
    }

    /** The configuration may be run: unless help or version was asked for, there is an endpoint. */
    predicate Runnable()
    {
      !isSetHelp && !isSetVersion ==> remoteEndPoints != []
    }
  }

  /**
   * A freshly constructed TcpLikaCommandLineOptions: nothing supplied, no endpoints.
   * The class's own initial scalar values are not part of this model; the CLR zero
   * values stand in for them.
   */
  const Initial: TcpLikaCommandLineOptions := TcpLikaCommandLineOptions(
    false, 0, false, false, false, 0, false, 0, false, 0, false, 0, false, 0, false, false, false, [])

  /** Why a positional argument is not an endpoint. */
  datatype EndPointError =
    | NotHostPort(item: string)     // fewer than two ':'-separated parts
    | InvalidAddress(text: string)  // IPAddress.Parse rejects the first part
    | InvalidPort(text: string)     // Int32.Parse rejects the second part
    | PortOutOfRange(port: int)     // IPEndPoint rejects the port number

  /** CommandLineException, told apart by cause rather than by message text. */
  datatype CommandLineError =
    | UnrecognizedOption(key: string)
    | InvalidValue(kind: OptionKind, value: string)
    | InvalidEndPoints(cause: EndPointError)
    | MissingEndPoint
}
