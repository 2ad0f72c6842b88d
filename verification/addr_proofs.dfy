/**
 * Properties of the `LnpAddr` codec: the round trip through rendering and
 * parsing, how every input string is classified by the parser, the
 * case-insensitivity of the scheme, concrete scenarios, and the derived order.
 */
module AddrProofs {
  import opened Wrappers
  import opened Text
  import opened Orders
  import opened Internet2
  import P2p
  import opened Addr

  // ------------------------------------------------------------ round trip

  /**
   * Parsing the rendering of a valid address gives the address back, for any
   * body parser meeting the assumed contract, a peer id and host that parser accepts and
   * plain-text id and host. A default port left out by rendering is restored by
   * the constructor.
   */
  lemma RoundTrip(a: LnpAddr, parse: BodyParser, isId: PeerId -> bool, isHost: Host -> bool)
    requires Valid(a) && Plain(a.nodeAddr.id) && Plain(a.nodeAddr.host)
    requires isId(a.nodeAddr.id) && isHost(a.nodeAddr.host)
    requires InvertsBodyRendering(parse, isId, isHost)
    ensures FromStr(Render(a), parse) == Success(a)
  {
    var scheme := P2p.Scheme(a.protocol);
    var q := Elided(a);
    var body := RenderBody(q);
    assert PlainParts(q);
    RenderBodyNoSep(q);
    SplitAfterPrefix(scheme, body);
    SplitNoSep(body);
    assert Split(Render(a)) == [scheme, body];
    LowerOfLower(scheme);
    assert parse(body) == Success(q);
  }

  /** Rendering tells valid addresses with plain-text ids and hosts apart. */
  lemma RenderInjective(a: LnpAddr, b: LnpAddr)
    requires Valid(a) && Plain(a.nodeAddr.id) && Plain(a.nodeAddr.host)
    requires Valid(b) && Plain(b.nodeAddr.id) && Plain(b.nodeAddr.host)
    ensures Render(a) == Render(b) <==> a == b
  {
    var anyId := (id: PeerId) => true;
    var anyHost := (host: Host) => true;
    ReferenceParserInverts(anyId, anyHost);
    RoundTrip(a, ReferenceParseBody, anyId, anyHost);
    RoundTrip(b, ReferenceParseBody, anyId, anyHost);
  }

  /**
   * Constructing from a partial address and rendering writes the port exactly
   * when it was given and differs from the protocol's default.
   */
  lemma ConstructThenRender(p: P2p.Protocol, addr: PartialNodeAddr)
    ensures Render(Construct(p, addr))
            == P2p.Scheme(p) + "://" + addr.id + "@" + addr.host
               + (if addr.port.Some? && addr.port.value != P2p.DefaultPort(p)
                  then ":" + Decimal(addr.port.value) else "")
  {
  }

  // -------------------------------------------------------- classification

  /** Without any "://" the whole input, lower-cased, is reported as an unknown protocol. */
  lemma MissingSeparator(s: string, parse: BodyParser)
    requires NoSep(s)
    ensures FromStr(s, parse) == Failure(AddrError(UnknownProtocolError(Lower(s))))
  {
    SplitNoSep(s);
  }

  /**
   * With a second "://" the text before the first one, lower-cased, is reported
   * as an unknown protocol, even when it names a known one.
   */
  lemma ExtraSeparator(s: string, i: int, j: int, parse: BodyParser)
    requires FirstSepAt(s, i) && SepAt(s, j) && i < j
    ensures FromStr(s, parse) == Failure(AddrError(UnknownProtocolError(Lower(s[..i]))))
  {
    SplitAtFirst(s, i);
    var rest := s[i + 3..];
    assert SepAt(rest, j - i - 3);
    assert !NoSep(rest);
    assert |Split(rest)| >= 2 by {
      assert Join(Split(rest)) == rest;
    }
  }

  /**
   * With exactly one "://" and a first piece that lower-cases to a protocol's
   * scheme, the text after the separator goes to the body parser verbatim: its
   * error is returned unchanged, and its result is resolved by that protocol's
   * constructor.
   */
  lemma SingleSeparatorKnownScheme(s: string, i: int, p: P2p.Protocol, parse: BodyParser)
    requires OnlySepAt(s, i) && Lower(s[..i]) == P2p.Scheme(p)
    ensures parse(s[i + 3..]).Failure? ==> FromStr(s, parse) == Failure(parse(s[i + 3..]).error)
    ensures parse(s[i + 3..]).Success? ==> FromStr(s, parse) == Success(Construct(p, parse(s[i + 3..]).value))
  {
    SingleSeparatorSplit(s, i);
  }

  /** With exactly one "://" and any other first piece, that piece, lower-cased, is an unknown protocol. */
  lemma SingleSeparatorUnknownScheme(s: string, i: int, parse: BodyParser)
    requires OnlySepAt(s, i)
    requires Lower(s[..i]) != P2p.Scheme(P2p.Bolt) && Lower(s[..i]) != P2p.Scheme(P2p.Bifrost)
    ensures FromStr(s, parse) == Failure(AddrError(UnknownProtocolError(Lower(s[..i]))))
  {
    SingleSeparatorSplit(s, i);
  }

  /** A single separator splits the input into the text before and after it. */
  lemma SingleSeparatorSplit(s: string, i: int)
    requires OnlySepAt(s, i)
    ensures Split(s) == [s[..i], s[i + 3..]]
  {
    SplitAtFirst(s, i);
    var rest := s[i + 3..];
    forall k | 0 <= k < |rest| ensures !SepAt(rest, k) {
      assert SepAt(rest, k) ==> SepAt(s, k + i + 3);
    }
    SplitNoSep(rest);
  }

  /**
   * The parser never raises `WrongAddrFormat` itself: every failure is the
   * unknown-protocol error for the first piece, or an error of the body parser.
   */
  lemma NoWrongAddrFormatOfItsOwn(s: string, parse: BodyParser, t: string)
    requires forall b :: parse(b) != Failure(AddrError(WrongAddrFormat(t)))
    ensures FromStr(s, parse) != Failure(AddrError(WrongAddrFormat(t)))
  {
  }

  // ------------------------------------------------------- case of scheme

  /**
   * The scheme is matched case-insensitively: schemes that lower-case alike
   * give the same result for the same body.
   */
  lemma SchemeCaseInsensitive(x: string, y: string, body: string, parse: BodyParser)
    requires NoSep(x) && Lower(x) == Lower(y)
    ensures FromStr(x + Sep + body, parse) == FromStr(y + Sep + body, parse)
  {
    LowerKeepsSep(x);
    LowerKeepsSep(y);
    SplitAfterPrefix(x, body);
    SplitAfterPrefix(y, body);
  }

  // ------------------------------------------------------------- scenarios

  /** "boltpeer@host" has no separator and is an unknown protocol, not a format error. */
  lemma ScenarioMissingSeparator(parse: BodyParser)
    ensures FromStr("boltpeer@host", parse)
            == Failure(AddrError(UnknownProtocolError("boltpeer@host")))
  {
    NoColonNoSep("boltpeer@host");
    MissingSeparator("boltpeer@host", parse);
    LowerOfLower("boltpeer@host");
  }

  /** "bolt://a://b" has two separators and is an unknown protocol "bolt". */
  lemma ScenarioExtraSeparator(parse: BodyParser)
    ensures FromStr("bolt://a://b", parse) == Failure(AddrError(UnknownProtocolError("bolt")))
  {
    var s := "bolt://a://b";
    assert FirstSepAt(s, 4);
    ExtraSeparator(s, 4, 8, parse);
    assert s[..4] == "bolt";
    LowerOfLower("bolt");
  }

  /** "foo://peer@host" is an unknown protocol "foo". */
  lemma ScenarioUnknownScheme(parse: BodyParser)
    ensures FromStr("foo://peer@host", parse) == Failure(AddrError(UnknownProtocolError("foo")))
  {
    var s := "foo://peer@host";
    assert forall j | 0 <= j < |s| && s[j] == ':' :: j == 3;
    assert s[..3] == "foo";
    LowerOfLower("foo");
    SingleSeparatorUnknownScheme(s, 3, parse);
  }

  /** "BOLT://", "Bolt://" and "bolt://" parse any body alike. */
  lemma ScenarioSchemeCase(body: string, parse: BodyParser)
    ensures FromStr("BOLT" + Sep + body, parse) == FromStr("bolt" + Sep + body, parse)
    ensures FromStr("Bolt" + Sep + body, parse) == FromStr("bolt" + Sep + body, parse)
  {
    BoltSpellings();
    SchemeCaseInsensitive("BOLT", "bolt", body, parse);
    SchemeCaseInsensitive("Bolt", "bolt", body, parse);
  }

  /** Upper- and title-case spellings of "bolt" lower-case to it and hold no separator. */
  lemma BoltSpellings()
    ensures NoSep("BOLT") && Lower("BOLT") == "bolt"
    ensures NoSep("Bolt") && Lower("Bolt") == "bolt"
  {
    NoColonNoSep("BOLT");
    NoColonNoSep("Bolt");
    assert LowerChar('B') == 'b' && LowerChar('O') == 'o' && LowerChar('L') == 'l' && LowerChar('T') == 't';
    assert Lower("BOLT") == [LowerChar('B'), LowerChar('O'), LowerChar('L'), LowerChar('T')];
    assert Lower("Bolt") == [LowerChar('B'), LowerChar('o'), LowerChar('l'), LowerChar('t')];
  }

  /**
   * For any body parser meeting the contract and accepting the peer id "03ab"
   * (opaque model text here, not a real public key) and the host "10.0.0.1", "bolt://03ab@10.0.0.1"
   * parses to port 9735, BOLT's default, and renders back unchanged.
   */
  lemma ScenarioDefaultPort(parse: BodyParser, isId: PeerId -> bool, isHost: Host -> bool)
    requires InvertsBodyRendering(parse, isId, isHost) && isId("03ab") && isHost("10.0.0.1")
    ensures var a := LnpAddr(P2p.Bolt, NodeAddr("03ab", "10.0.0.1", Some(9735)));
            && FromStr("bolt://03ab@10.0.0.1", parse) == Success(a)
            && Port(a) == 9735
            && Render(a) == "bolt://03ab@10.0.0.1"
  {
    var a := LnpAddr(P2p.Bolt, NodeAddr("03ab", "10.0.0.1", Some(9735)));
    assert Plain("03ab") && Plain("10.0.0.1");
    RoundTrip(a, parse, isId, isHost);
    assert Render(a) == "bolt://03ab@10.0.0.1";
  }

  /**
   * For any body parser meeting the contract and accepting the peer id "03ab"
   * and the host "10.0.0.1",
   * "bolt://03ab@10.0.0.1:9999" parses to port 9999 and renders back with ":9999".
   */
  lemma ScenarioExplicitPort(parse: BodyParser, isId: PeerId -> bool, isHost: Host -> bool)
    requires InvertsBodyRendering(parse, isId, isHost) && isId("03ab") && isHost("10.0.0.1")
    ensures var a := LnpAddr(P2p.Bolt, NodeAddr("03ab", "10.0.0.1", Some(9999)));
            && FromStr("bolt://03ab@10.0.0.1:9999", parse) == Success(a)
            && Port(a) == 9999
            && Render(a) == "bolt://03ab@10.0.0.1:9999"
  {
    var a := LnpAddr(P2p.Bolt, NodeAddr("03ab", "10.0.0.1", Some(9999)));
    assert Decimal(9) == "9";
    assert Decimal(99) == "99";
    assert Decimal(999) == "999";
    assert Decimal(9999) == "9999";
    assert Render(a) == "bolt://03ab@10.0.0.1:9999";
    RoundTrip(a, parse, isId, isHost);
  }

  // -------------------------------------------------------------- ordering

  /** Declaration order on protocols is a total order. */
  lemma ProtocolOrderTotal()
    ensures TotalOrder(P2p.CompareProtocol)
  {
  }

  /**
   * Comparing protocol first and node address second is a total order whenever
   * the node-address order is one.
   */
  lemma CompareTotalOrder(compareNode: (NodeAddr, NodeAddr) -> Ordering)
    requires TotalOrder(compareNode)
    ensures TotalOrder((a: LnpAddr, b: LnpAddr) => Compare(a, b, compareNode))
  {
    var cmp := (a: LnpAddr, b: LnpAddr) => Compare(a, b, compareNode);
    forall a: LnpAddr, b: LnpAddr ensures cmp(a, b) == Equal <==> a == b {
    }
    forall a: LnpAddr, b: LnpAddr ensures cmp(a, b) == Less <==> cmp(b, a) == Greater {
    }
    forall a: LnpAddr, b: LnpAddr, c: LnpAddr | cmp(a, b) == Less && cmp(b, c) == Less
      ensures cmp(a, c) == Less
    {
    }
  }
}
