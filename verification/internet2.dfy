/**
 * The node-address types that `LnpAddr` is built from. They belong to the
 * internet2 crate, which is not part of this model: peer ids and hosts are kept
 * as opaque text, and the body parser (`PartialNodeAddr::from_str`) is not
 * defined here but passed to the address parser as a function, with an assumed
 * contract (`InvertsBodyRendering`).
 */
module Internet2 {
  import opened Wrappers
  import opened Text

  /** A TCP port (`u16`). */
  type PortNumber = n: int | 0 <= n < 0x1_0000

  /** The textual form of a peer's public key. */
  type PeerId = string

  /** The textual form of a host address (IP, DNS name, onion address, ...) without a port. */
  type Host = string

  /** A peer id and host whose port may be missing (`internet2::addr::PartialNodeAddr`). */
  datatype PartialNodeAddr = PartialNodeAddr(id: PeerId, host: Host, port: Option<PortNumber>)

  /**
   * A peer id and a socket address (`internet2::addr::NodeAddr`). The socket
   * address answers its port as an `Option`, so a missing port is representable;
   * `LnpAddr` keeps it present as an invariant.
   */
  datatype NodeAddr = NodeAddr(id: PeerId, host: Host, port: Option<PortNumber>)

  /** `internet2::addr::AddrParseError`, the two variants the address parser raises itself. */
  datatype AddrParseError =
    | UnknownProtocolError(protocol: string)
    | WrongAddrFormat(text: string)

  /**
   * `internet2::addr::NodeAddrParseError`: an address error converted with `into`,
   * or whatever the body parser reports about a malformed id, host or port.
   */
  datatype NodeAddrParseError =
    | AddrError(inner: AddrParseError)
    | BodyError(reason: string)

  /** The body parser's signature: `PartialNodeAddr::from_str`. */
  type BodyParser = string -> Result<PartialNodeAddr, NodeAddrParseError>

  /**
   * `PartialNodeAddr::node_addr(default_port)`: the same id and host, with the
   * port kept when given and `defaultPort` otherwise, so the port is always present.
   */
  function Resolve(a: PartialNodeAddr, defaultPort: PortNumber): (r: NodeAddr)
    ensures r.id == a.id && r.host == a.host
    ensures r.port.Some?
    ensures a.port.Some? ==> r.port == a.port
    ensures a.port.None? ==> r.port == Some(defaultPort)
  {
    NodeAddr(a.id, a.host, Some(a.port.GetOr(defaultPort)))
  }

  /** `":" + port` when a port is given, nothing otherwise. */
  function PortSuffix(port: Option<PortNumber>): string {
    match port
    case Some(p) => ":" + Decimal(p)
    case None => ""
  }

  /** The text of a partial address: `id@host`, then `:port` when a port is given. */
  function RenderBody(a: PartialNodeAddr): string {
    a.id + "@" + a.host + PortSuffix(a.port)
  }

  /** Text holding neither '@' nor ':', so it cannot be confused with the delimiters of `id@host:port`. */
  predicate Plain(s: string) {
    '@' !in s && ':' !in s
  }

  /** Both the peer id and the host of `a` are plain text. */
  predicate PlainParts(a: PartialNodeAddr) {
    Plain(a.id) && Plain(a.host)
  }

  /**
   * The contract assumed of the body parser: it inverts `RenderBody` on every
   * partial address whose id and host are plain text and whose id is one the
   * parser accepts as a peer identity and whose host is one it accepts as a
   * host address (`isId` and `isHost`; for internet2, the text of a
   * secp256k1 public key).
   */
  ghost predicate InvertsBodyRendering(parse: BodyParser, isId: PeerId -> bool, isHost: Host -> bool) {
    forall a: PartialNodeAddr :: PlainParts(a) && isId(a.id) && isHost(a.host) ==> parse(RenderBody(a)) == Success(a)
  }

  /** The rendered body of a plain partial address holds no "://": its only ':' precedes a digit. */
  lemma RenderBodyNoSep(a: PartialNodeAddr)
    requires PlainParts(a)
    ensures NoSep(RenderBody(a))
  {
    var x := a.id + "@" + a.host;
    var s := RenderBody(a);
    assert ':' !in x;
    if a.port.None? {
      assert s == x;
      forall i | 0 <= i < |s| ensures s[i] != ':' {
        assert s[i] in x;
      }
    } else {
      var d := Decimal(a.port.value);
      assert s == x + [':'] + d;
      forall i | 0 <= i < |s| ensures !SepAt(s, i) {
        if i < |x| {
          assert s[i] == x[i];
        } else if i == |x| {
          assert s[i + 1] == d[0] && d[0] in d;
        } else {
          assert s[i] == d[i - |x| - 1] && d[i - |x| - 1] in d;
        }
      }
    }
  }

  /**
   * A concrete body parser: the id runs to the first '@', the host to the first
   * ':' after it, and the rest must be a decimal port below 65536. It stands in
   * for internet2's parser to show that `InvertsBodyRendering` can be met.
   */
  function ReferenceParseBody(s: string): Result<PartialNodeAddr, NodeAddrParseError> {
    var at := IndexOf(s, '@');
    if at.None? then Failure(BodyError("missing '@'"))
    else
      var id := s[..at.value];
      var rest := s[at.value + 1..];
      var colon := IndexOf(rest, ':');
      if colon.None? then Success(PartialNodeAddr(id, rest, None))
      else
        var port := ParseDecimal(rest[colon.value + 1..]);
        if port.None? then Failure(BodyError("invalid port"))
        else if port.value >= 0x1_0000 then Failure(BodyError("port out of range"))
        else Success(PartialNodeAddr(id, rest[..colon.value], Some(port.value)))
  }

  /** The reference parser inverts the rendering of one plain partial address. */
  lemma ReferenceParsesRendering(a: PartialNodeAddr)
    requires PlainParts(a)
    ensures ReferenceParseBody(RenderBody(a)) == Success(a)
  {
    var s := RenderBody(a);
    var tail := a.host + PortSuffix(a.port);
    assert s == a.id + ['@'] + tail;
    IndexOfAfter(a.id, '@', tail);
    assert s[..|a.id|] == a.id;
    assert s[|a.id| + 1..] == tail;
    if a.port.Some? {
      var d := Decimal(a.port.value);
      assert tail == a.host + [':'] + d;
      IndexOfAfter(a.host, ':', d);
      assert tail[..|a.host|] == a.host;
      assert tail[|a.host| + 1..] == d;
      DecimalRoundTrip(a.port.value);
    } else {
      assert tail == a.host;
    }
  }

  /** The reference parser meets the assumed body-parser contract, whatever ids and hosts count as valid. */
  lemma ReferenceParserInverts(isId: PeerId -> bool, isHost: Host -> bool)
    ensures InvertsBodyRendering(ReferenceParseBody, isId, isHost)
  {
    forall a: PartialNodeAddr | PlainParts(a) && isId(a.id) && isHost(a.host) ensures ReferenceParseBody(RenderBody(a)) == Success(a) {
      ReferenceParsesRendering(a);
    }
  }
}
