/**
 * Reading the positional arguments as `<host:port>` endpoints. The address
 * parser (IPAddress.Parse) is a parameter: which texts denote which address is
 * not part of this model.
 */
module EndPoints {
  import opened Wrappers
  import opened Text
  import opened Options

  /**
   * One positional argument as an endpoint: split on every ':', the first piece
   * is the address and the second the port; further pieces are ignored.
   */
  function ParseEndPoint(parseAddress: string -> Option<IPAddress>, item: string): (r: Result<EndPoint, EndPointError>)
    ensures r.Success? <==>
      && |Split(item, ':')| >= 2
      && parseAddress(Split(item, ':')[0]).Some?
      && ParseInt(Split(item, ':')[1]).Some?
      && MinPort <= ParseInt(Split(item, ':')[1]).value <= MaxPort
    ensures r.Success? ==>
      r.value == EndPoint(parseAddress(Split(item, ':')[0]).value, ParseInt(Split(item, ':')[1]).value)
    ensures r.Failure? && r.error.PortOutOfRange? ==> r.error.port < MinPort || r.error.port > MaxPort
  {
    var splits := Split(item, ':');
    if |splits| < 2 then Failure(NotHostPort(item))
    else
      match parseAddress(splits[0])
      case None => Failure(InvalidAddress(splits[0]))
      case Some(host) =>
        match ParseInt(splits[1])
        case None => Failure(InvalidPort(splits[1]))
        case Some(port) =>
          if port < MinPort || port > MaxPort then Failure(PortOutOfRange(port))
          else Success(EndPoint(host, port))
  }

  /** The text `<host>:<port>` of an endpoint. */
  function FormatEndPoint(host: string, port: int): (r: string)
  {
    host + ":" + FormatInt(port)
  }

  /** Every positional argument as an endpoint, in order; the first that fails decides the error. */
  function ParseEndPoints(parseAddress: string -> Option<IPAddress>, items: seq<string>): (r: Result<seq<EndPoint>, EndPointError>)
  {
    if items == [] then Success([])
    else
      match ParseEndPoints(parseAddress, items[..|items| - 1])
      case Failure(e) => Failure(e)
      case Success(endPoints) =>
        match ParseEndPoint(parseAddress, items[|items| - 1])
        case Failure(e) => Failure(e)
        case Success(endPoint) => Success(endPoints + [endPoint])
  }

  /** An endpoint written as `<host>:<port>` reads back as that address and port. */
  lemma EndPointRoundTrip(parseAddress: string -> Option<IPAddress>, host: string, address: IPAddress, port: int)
    requires ':' !in host && parseAddress(host) == Some(address)
    requires MinPort <= port <= MaxPort
    ensures ParseEndPoint(parseAddress, FormatEndPoint(host, port)) == Success(EndPoint(address, port))
  {
    FormatIntHasNoColon(port);
    SplitJoin([host, FormatInt(port)], ':');
    ParseFormatInt(port);
  }

  /**
   * An accepted endpoint text is `<host>:<rest>` where the host holds no ':' and is
   * the text the address parser accepted; in particular a host that contains ':'
   * (every IPv6 literal) is never passed to the address parser.
   */
  lemma {:induction false} EndPointHostHasNoColon(parseAddress: string -> Option<IPAddress>, item: string)
    requires ParseEndPoint(parseAddress, item).Success?
    ensures exists host, rest ::
      && item == host + ":" + rest
      && ':' !in host
      && parseAddress(host) == Some(ParseEndPoint(parseAddress, item).value.address)
  {
    var splits := Split(item, ':');
    JoinSplit(item, ':');
    SplitPiecesHaveNoSeparator(item, ':');
    var rest := Join(splits[1..], ':');
    assert item == splits[0] + ":" + rest;
    assert ':' !in splits[0];
  }

  /** A text without ':' is never an endpoint, whatever the address parser says. */
  lemma EndPointNeedsColon(parseAddress: string -> Option<IPAddress>, item: string)
    ensures ':' !in item <==> ParseEndPoint(parseAddress, item) == Failure(NotHostPort(item))
  {
    SplitHasTwoParts(item, ':');
  }

  /** Pieces after the port do not change the outcome. */
  lemma EndPointIgnoresTrailingParts(parseAddress: string -> Option<IPAddress>, item: string, extra: string)
    requires ':' in item
    ensures ParseEndPoint(parseAddress, item + ":" + extra) == ParseEndPoint(parseAddress, item)
  {
    var parts := Split(item, ':');
    var longer := item + ":" + extra;
    SplitConcat(item, ':', extra);
    SplitHasTwoParts(item, ':');
    assert Split(longer, ':') == parts + Split(extra, ':');
    assert Split(longer, ':')[0] == parts[0] && Split(longer, ':')[1] == parts[1];
  }

  /**
   * The endpoints follow the positional arguments one for one and in order, with
   * duplicates kept; every positional argument is read.
   */
  lemma {:induction false} EndPointsInOrder(parseAddress: string -> Option<IPAddress>, items: seq<string>)
    requires ParseEndPoints(parseAddress, items).Success?
    ensures |ParseEndPoints(parseAddress, items).value| == |items|
    ensures forall k :: 0 <= k < |items| ==>
      ParseEndPoint(parseAddress, items[k]) == Success(ParseEndPoints(parseAddress, items).value[k])
  {
    if items != [] {
      EndPointsInOrder(parseAddress, items[..|items| - 1]);
    }
  }

  /** When every positional argument is an endpoint, so is the whole list. */
  lemma {:induction false} EndPointsAllAccepted(parseAddress: string -> Option<IPAddress>, items: seq<string>)
    requires forall k :: 0 <= k < |items| ==> ParseEndPoint(parseAddress, items[k]).Success?
    ensures ParseEndPoints(parseAddress, items).Success?
  {
    if items != [] {
      EndPointsAllAccepted(parseAddress, items[..|items| - 1]);
    }
  }

  /** The first positional argument that is not an endpoint decides the error. */
  lemma {:induction false} EndPointsFailAt(parseAddress: string -> Option<IPAddress>, items: seq<string>, j: nat)
    requires j < |items|
    requires ParseEndPoints(parseAddress, items[..j]).Success?
    requires ParseEndPoint(parseAddress, items[j]).Failure?
    ensures ParseEndPoints(parseAddress, items) == Failure(ParseEndPoint(parseAddress, items[j]).error)
    decreases |items|
  {
    var front := items[..|items| - 1];
    if j < |items| - 1 {
      assert front[..j] == items[..j];
      EndPointsFailAt(parseAddress, front, j);
    } else {
      assert front == items[..j];
    }
  }
}
