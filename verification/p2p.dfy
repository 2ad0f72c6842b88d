/**
 * The protocol tag from the lnp2p crate, which is not part of this model beyond
 * what `LnpAddr` reads from it: one default-port table, used both by the
 * constructors and by rendering, and the scheme text of each protocol.
 */
module P2p {
  import opened Text
  import opened Orders
  import opened Internet2

  /** `lnp2p::Protocol`, in declaration order. */
  datatype Protocol = Bolt | Bifrost

  /** `LNP2P_BOLT_PORT`. */
  const BoltPort: PortNumber := 9735

  /** `LNP2P_BIFROST_PORT`. */
  const BifrostPort: PortNumber := 9999

  /** `Protocol::default_port`: the single table of default ports. */
  function DefaultPort(p: Protocol): PortNumber {
    match p
    case Bolt => BoltPort
    case Bifrost => BifrostPort
  }

  /**
   * The protocol's `Display` text, used as the URI scheme. It is lower case and
   * holds no separator, so it survives both lower-casing and splitting.
   */
  function Scheme(p: Protocol): (r: string)
    ensures |r| > 0 && IsLower(r) && NoSep(r)
  {
    match p
    case Bolt => "bolt"
    case Bifrost => "bifrost"
  }

  /** Distinct protocols have distinct schemes. */
  lemma SchemeInjective(p: Protocol, q: Protocol)
    ensures Scheme(p) == Scheme(q) <==> p == q
  {
    if p != q {
      assert |Scheme(p)| != |Scheme(q)|;
    }
  }

  /** The derived `Ord` of `Protocol`: by declaration order. */
  function CompareProtocol(p: Protocol, q: Protocol): Ordering {
    if p == q then Equal
    else if p.Bolt? then Less
    else Greater
  }
}
