# LnpAddr: a verified model of the LNP node address codec

This project models `LnpAddr` from the lnp-core library. An `LnpAddr` pairs a
protocol tag (`Bolt` or `Bifrost`) with a node address: a peer id, a host and
a port that is always present. It has a textual form
`scheme://id@host[:port]`. The `:port` suffix is written only when the port
differs from the protocol's default port. Parsing splits the text on `"://"`,
lower-cases the first piece, dispatches on it, and hands the rest to the
partial-address parser.

Modules (`wrappers.dfy` holds two small ones; every other file holds one):

- `Wrappers` and `Orders` (`wrappers.dfy`): `Option`, `Result`, three-way `Ordering`, and the `TotalOrder` predicate.
- `Text` (`text.dfy`): ASCII lower-casing, the search for `"://"`, a model of `str::split("://")` with its inverse `Join`, first-index search, and decimal rendering and parsing.
- `Internet2` (`internet2.dfy`): the foreign node-address types, `PartialNodeAddr::node_addr` (`Resolve`), the text of a partial address (`RenderBody`), and the contract assumed of the body parser (`InvertsBodyRendering`). That contract is relative to predicates `isId` and `isHost` for the peer ids and hosts the parser accepts; for internet2 these are the texts of secp256k1 public keys and of IP or onion addresses. `ReferenceParseBody` is a concrete parser proved to meet that contract, which shows the contract can be satisfied.
- `P2p` (`p2p.dfy`): `Protocol`, its default-port table (`DefaultPort`, the only source of the two constants), its scheme text, and its order.
- `Addr` (`addr.dfy`): `LnpAddr`, the constructors, `Port`, `Render` and `FromStr`, and the derived order.
- `AddrProofs` (`addr_proofs.dfy`): the round trip, the classification of every input by the parser, case-insensitive schemes, concrete scenarios, and the order lemmas.

The body parser (`PartialNodeAddr::from_str`) and the order on node addresses
belong to internet2, which is not part of this model. `FromStr` and `Compare`
take them as function parameters. Peer ids and hosts are opaque text.

The invariant that the port is always present is the predicate `Addr.Valid`.
Both constructors and every successful `FromStr` establish it. `Port` and
`Render` require it, so the `expect` in `port()` cannot fire.

A missing or repeated `"://"` does not give `WrongAddrFormat`. `str::split`
always yields a first piece, so the `(Some(unknown), ..)` arm at
src/addr.rs:95-98 catches both inputs. It reports `UnknownProtocolError`
carrying the lower-cased first piece. The `_` arm at src/addr.rs:99 is
unreachable. See `AddrProofs.MissingSeparator`, `AddrProofs.ExtraSeparator`
and `AddrProofs.NoWrongAddrFormatOfItsOwn`.

## Model

| member | source | states |
|---|---|---|
| Addr.Bolt | src/addr.rs:38-44 | The result has protocol `Bolt` and satisfies the port invariant. Its node address is the argument resolved against BOLT's entry in `P2p.DefaultPort`, the same table that rendering reads: an explicit port is kept, a missing one becomes the default. |
| Addr.Bifrost | src/addr.rs:46-52 | The same as `Bolt`, for protocol `Bifrost` and its entry in `P2p.DefaultPort`. |
| Internet2.Resolve | src/addr.rs:42 | Resolving keeps the id and host, keeps an explicit port, fills a missing port with the given default, and always yields a port. |
| Addr.Construct | src/addr.rs:89-93 | The parser's dispatch: the `bolt` arm uses `LnpAddr::bolt` and the `bifrost` arm `LnpAddr::bifrost`. Each resolves against its protocol's default port and satisfies the port invariant. |
| Addr.Port | src/addr.rs:54-60 | Defined on every address satisfying the port invariant, and returns the stored port. |
| Addr.Elided | src/addr.rs:72-74 | Rendering drops the port exactly when it equals the protocol default, and resolving against that default restores the node address. |
| Addr.Render | src/addr.rs:63-76 | The text is the scheme, `"://"`, then the partial address with the default port elided; the default is read from `P2p.DefaultPort` (`Protocol::default_port`). The text has its shortest length if and only if the port is the protocol default. |
| Addr.FromStr | src/addr.rs:82-101 | Success means exactly two `"://"` pieces, a lower-cased first piece equal to the protocol's scheme, and a constructor applied to the body parser's result. Every failure is either `UnknownProtocolError` carrying the lower-cased first piece, or the body parser's own error returned unchanged. |
| Addr.Compare | src/addr.rs:27-35 | The protocol decides whenever the protocols differ. Only on equal protocols does the node-address order decide. |
| Text.Split | src/addr.rs:83 | Splitting on `"://"` yields at least one piece. Joining the pieces with `"://"` gives back the input, and no piece contains `"://"`. |
| Text.Lower | src/addr.rs:85 | Lower-casing keeps the length, maps every ASCII capital to its lower-case letter (code point plus 32), and changes nothing else. |
| Text.LowerKeepsSep | src/addr.rs:85 | Lower-casing the first piece neither creates nor removes a `"://"`. |
| P2p.Scheme | src/addr.rs:67-68 | Each protocol's scheme is non-empty, lower case and free of `"://"`. |
| P2p.SchemeInjective | src/addr.rs:89-93 | Distinct protocols have distinct schemes, so the parser's dispatch is unambiguous. |
| Text.DecimalRoundTrip | src/addr.rs:73 | The decimal port text written by rendering reads back as the same number. |
| AddrProofs.RoundTrip | src/addr.rs:39-101 | Parsing the rendering of any valid address gives the address back. This holds for any body parser meeting the assumed contract, for a peer id and host that parser accepts, and for plain-text ids and hosts. A default port left out by rendering is restored by the constructor. |
| AddrProofs.RenderInjective | src/addr.rs:63-76 | Two valid addresses with plain-text ids and hosts render identically if and only if they are equal. |
| AddrProofs.ConstructThenRender | src/addr.rs:39-76 | An address built by a constructor renders `:port` exactly when the partial address gave a port different from the protocol default. |
| AddrProofs.MissingSeparator | src/addr.rs:83-99 | An input without `"://"` fails with `UnknownProtocolError` carrying the whole input, lower-cased. It never fails with `WrongAddrFormat`. |
| AddrProofs.ExtraSeparator | src/addr.rs:83-98 | An input with more than one `"://"` fails with `UnknownProtocolError` carrying the lower-cased text before the first separator, even when that text is a known scheme. |
| AddrProofs.SingleSeparatorKnownScheme | src/addr.rs:89-94 | With exactly one `"://"` and a known scheme in any case, the text after the separator goes to the body parser verbatim. Its error is returned unchanged, and its result is resolved by the matching constructor. |
| AddrProofs.SingleSeparatorUnknownScheme | src/addr.rs:95-98 | With exactly one `"://"` and any other scheme, parsing fails with `UnknownProtocolError` carrying the lower-cased scheme. |
| AddrProofs.NoWrongAddrFormatOfItsOwn | src/addr.rs:99 | Parsing yields `WrongAddrFormat` only when the body parser produced it. |
| AddrProofs.SchemeCaseInsensitive | src/addr.rs:85-93 | Two schemes that lower-case alike give the same parse result for the same body. |
| AddrProofs.ScenarioMissingSeparator | src/addr.rs:95-98 | `boltpeer@host` fails with `UnknownProtocolError("boltpeer@host")`. |
| AddrProofs.ScenarioExtraSeparator | src/addr.rs:95-98 | `bolt://a://b` fails with `UnknownProtocolError("bolt")`. |
| AddrProofs.ScenarioUnknownScheme | src/addr.rs:95-98 | `foo://peer@host` fails with `UnknownProtocolError("foo")`. |
| AddrProofs.ScenarioSchemeCase | src/addr.rs:85 | `BOLT://`, `Bolt://` and `bolt://` parse any body alike. |
| AddrProofs.BoltSpellings | src/addr.rs:85 | `BOLT` and `Bolt` lower-case to `bolt` and contain no separator. |
| AddrProofs.ScenarioDefaultPort | src/addr.rs:24-26 | For any body parser meeting the contract and accepting the peer id `03ab` (opaque model text, not a real public key) and the host `10.0.0.1`, `bolt://03ab@10.0.0.1` parses to port 9735 and renders back unchanged. |
| AddrProofs.ScenarioExplicitPort | src/addr.rs:72-74 | For any body parser meeting the contract and accepting the peer id `03ab` (opaque model text) and the host `10.0.0.1`, `bolt://03ab@10.0.0.1:9999` parses to port 9999 and renders back with `:9999`. |
| AddrProofs.CompareTotalOrder | src/addr.rs:27 | Comparing the protocol first and the node address second is a total order whenever the node-address order is one. |
| AddrProofs.ProtocolOrderTotal | src/addr.rs:27 | Declaration order on protocols is a total order. |

## Left out

- `NetworkEncode`/`NetworkDecode` (src/addr.rs:28): the byte layout belongs to the strict_encoding and internet2 codecs, which are not part of this model.
- `Hash` and `Debug` (src/addr.rs:27): a structural hash of equal values is equal by construction, and `Debug` output is not specified.
- `PartialNodeAddr::from_str`: its real grammar is internet2's. It is a parameter of `FromStr`. Only its inversion of `RenderBody` is assumed, and only for plain-text ids and hosts that it accepts (`isId`, `isHost`). Which texts are valid public keys or host addresses is not modelled.
- The textual forms of `PublicKey`, `NodeAddr` and host addresses (IP, onion and so on): they are foreign types, and here they are opaque text.
- `str::to_lowercase`: only ASCII lower-casing is modelled. Unicode case mapping is left out.
- `fmt::Formatter` write errors: rendering is a pure string function.
- src/lib.rs: crate attributes, `extern crate` lines, a macro and re-exports. It has no logic of its own. The channel, extension and router modules are not part of this model.
- The default ports 9735 (BOLT) and 9999 (Bifrost) and the display text of `Protocol` come from lnp2p, which is not part of this model. The general lemmas do not depend on the two numbers; the scenario lemmas use 9735 as BOLT's default and 9999 as a port that differs from it.
- Addr.Compare: the order on `Protocol` is taken to be declaration order (`Bolt` before `Bifrost`), because lnp2p is not part of this model. The order on node addresses is a parameter.
- AddrProofs.RoundTrip: stated only for ids and hosts without '@' or ':'. Without that restriction, different id/host splits render to the same text and no parser could invert them. This leaves out IPv6 hosts.
- AddrProofs.RenderInjective: stated under the same plain-text restriction as the round trip.
