/**
 * `LnpAddr`: a protocol tag paired with a fully resolved node address, and its
 * textual codec `scheme://id@host[:port]`, where the port is written only when
 * it differs from the protocol's default.
 */
module Addr {
  import opened Wrappers
  import opened Text
  import opened Orders
  import opened Internet2
  import P2p

  /** A node address together with the protocol used to reach it. */
  datatype LnpAddr = LnpAddr(protocol: P2p.Protocol, nodeAddr: NodeAddr)

  /** The construction invariant: the node address always carries a port. */
  predicate Valid(a: LnpAddr) {
    a.nodeAddr.port.Some?
  }

  /**
   * `LnpAddr::bolt`: a BOLT address whose node address is `addr` resolved
   * against the default-port table entry for BOLT.
   */
  function Bolt(addr: PartialNodeAddr): (r: LnpAddr)
    ensures Valid(r)
    ensures r.protocol == P2p.Bolt
    ensures r.nodeAddr == Resolve(addr, P2p.DefaultPort(P2p.Bolt))
  {
    LnpAddr(P2p.Bolt, Resolve(addr, P2p.BoltPort))
  }

  /**
   * `LnpAddr::bifrost`: a Bifrost address whose node address is `addr` resolved
   * against the default-port table entry for Bifrost.
   */
  function Bifrost(addr: PartialNodeAddr): (r: LnpAddr)
    ensures Valid(r)
    ensures r.protocol == P2p.Bifrost
    ensures r.nodeAddr == Resolve(addr, P2p.DefaultPort(P2p.Bifrost))
  {
    LnpAddr(P2p.Bifrost, Resolve(addr, P2p.BifrostPort))
  }

  /** The constructor the parser dispatches to for a protocol. */
  function Construct(p: P2p.Protocol, addr: PartialNodeAddr): (r: LnpAddr)
    ensures Valid(r)
    ensures r == LnpAddr(p, Resolve(addr, P2p.DefaultPort(p)))
  {
    match p
    case Bolt => Bolt(addr)
    case Bifrost => Bifrost(addr)
  }

  /** `LnpAddr::port`: total on valid addresses, so its `expect` cannot fire. */
  function Port(a: LnpAddr): (r: PortNumber)
    requires Valid(a)
    ensures a.nodeAddr.port == Some(r)
  {
    a.nodeAddr.port.value
  }

  /**
   * The partial address that rendering writes after the scheme: the port is
   * dropped when it is the protocol's default, and resolving against that
   * default brings it back.
   */
  function Elided(a: LnpAddr): (r: PartialNodeAddr)
    requires Valid(a)
    ensures r.port.None? <==> Port(a) == P2p.DefaultPort(a.protocol)
    ensures Resolve(r, P2p.DefaultPort(a.protocol)) == a.nodeAddr
  {
    var port := Port(a);
    PartialNodeAddr(a.nodeAddr.id, a.nodeAddr.host,
                    if port == P2p.DefaultPort(a.protocol) then None else Some(port))
  }

  /**
   * `Display for LnpAddr`: the scheme, "://", the id, "@", the host, then
   * ":" and the port only when the port is not the protocol's default. The text
   * has its shortest length exactly when the port is the default.
   */
  function Render(a: LnpAddr): (r: string)
    requires Valid(a)
    ensures r == P2p.Scheme(a.protocol) + Sep + RenderBody(Elided(a))
    ensures |r| == |P2p.Scheme(a.protocol)| + 4 + |a.nodeAddr.id| + |a.nodeAddr.host|
            <==> Port(a) == P2p.DefaultPort(a.protocol)
  {
    var head := P2p.Scheme(a.protocol) + "://" + a.nodeAddr.id + "@" + a.nodeAddr.host;
    if P2p.DefaultPort(a.protocol) != Port(a) then head + ":" + Decimal(Port(a)) else head
  }

  /**
   * `FromStr for LnpAddr`. The input is split on "://" and the first three
   * pieces are inspected: a lower-cased first piece "bolt" or "bifrost" with
   * exactly one more piece hands that piece to `parseBody` and resolves the
   * result with the matching constructor; any other first piece is reported as
   * an unknown protocol, lower-cased. The final `WrongAddrFormat` arm needs a
   * missing first piece, which splitting never yields.
   *
   * A success therefore comes from exactly two pieces and a known scheme; a
   * failure is either the unknown-protocol error or the body parser's own error.
   */
  function FromStr(s: string, parseBody: BodyParser): (r: Result<LnpAddr, NodeAddrParseError>)
    ensures r.Success? ==> Valid(r.value)
    ensures r.Success? ==>
              && |Split(s)| == 2
              && Lower(Split(s)[0]) == P2p.Scheme(r.value.protocol)
              && parseBody(Split(s)[1]).Success?
              && r.value == Construct(r.value.protocol, parseBody(Split(s)[1]).value)
    ensures r.Failure? ==>
              || r.error == AddrError(UnknownProtocolError(Lower(Split(s)[0])))
              || (&& |Split(s)| == 2
                  && parseBody(Split(s)[1]).Failure?
                  && r.error == parseBody(Split(s)[1]).error)
  {
    var pieces := Split(s);
    var first := if |pieces| > 0 then Some(Lower(pieces[0])) else None;
    var second := if |pieces| > 1 then Some(pieces[1]) else None;
    var third := if |pieces| > 2 then Some(pieces[2]) else None;
    if first == Some("bolt") && second.Some? && third.None? then
      parseBody(second.value).MapValue(Bolt)
    else if first == Some("bifrost") && second.Some? && third.None? then
      parseBody(second.value).MapValue(Bifrost)
    else if first.Some? then
      Failure(AddrError(UnknownProtocolError(first.value)))
    else
      Failure(AddrError(WrongAddrFormat(s)))
  }

  /**
   * The derived `Ord for LnpAddr`: protocols are compared first and the node
   * addresses, by `compareNode` (internet2's own order), only on a tie.
   */
  function Compare(a: LnpAddr, b: LnpAddr, compareNode: (NodeAddr, NodeAddr) -> Ordering): (r: Ordering)
    ensures a.protocol != b.protocol ==> r != Equal && r == P2p.CompareProtocol(a.protocol, b.protocol)
    ensures a.protocol == b.protocol ==> r == compareNode(a.nodeAddr, b.nodeAddr)
  {
    var byProtocol := P2p.CompareProtocol(a.protocol, b.protocol);
    if byProtocol != Equal then byProtocol else compareNode(a.nodeAddr, b.nodeAddr)
  }
}
