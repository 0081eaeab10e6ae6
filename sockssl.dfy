/**
 * The connection-driving code: each method reads from and writes to one Conn
 * exactly as the corresponding Go function does, and is proved to leave the
 * connection as the matching step function of Codec or Negotiation says:
 * same result, the bytes that step consumed gone from the unread input, and
 * what it wrote appended to the output.
 */
module SockSsl {
  import opened Wire
  import opened Text
  import opened Codec
  import opened Negotiation
  import opened Stream

  /** readBytes: a fresh n-byte buffer filled by io.ReadFull. */
  method ReadBytes(c: Conn, n: nat) returns (r: Result<seq<byte>>)
    modifies c`rest
    ensures n <= |old(c.rest)| ==> r == Ok(old(c.rest)[..n]) && c.rest == old(c.rest)[n..]
    ensures n > |old(c.rest)| ==> r == Err(Truncated) && c.rest == []
  {
    r := c.ReadFull(n);
  }

  /**
   * DecodeAddress: read the tag, for a domain the length byte, then addrLen + 2
   * bytes, appending each read to raw when saveRaw is set; addr is the host and
   * the big-endian port joined into one address, and stays empty on failure.
   */
  method DecodeAddress(c: Conn, saveRaw: bool, ipv6Text: seq<byte> -> string) returns (r: Result<Decoded>, addr: string)
    modifies c`rest
    ensures r == AddressOutcome(old(c.rest), saveRaw).result
    ensures addr == if r.Ok? then AddressText(r.value.target, ipv6Text) else ""
    ensures c.rest == AddressOutcome(old(c.rest), saveRaw).rest
  {
    ghost var inp := c.rest;
    AddressRecord(inp, saveRaw);
    var buf := ReadBytes(c, 1);
    if buf.Err? {
      return Err(buf.failure), "";
    }
    var raw: seq<byte> := [];
    if saveRaw {
      raw := raw + buf.value;
    }
    var addrLen: nat;
    var atype := buf.value[0];
    assert atype == inp[0];
    if atype == AddrTypeIPv4 {
      addrLen := IPv4Len;
    } else if atype == AddrTypeIPv6 {
      addrLen := IPv6Len;
    } else if atype == AddrTypeDomain {
      buf := ReadBytes(c, 1);
      if buf.Err? {
        return Err(buf.failure), "";
      }
      if saveRaw {
        assert inp[..1] + inp[1..][..1] == inp[..2];
        raw := raw + buf.value;
      }
      assert buf.value[0] == inp[1];
      addrLen := buf.value[0] as nat;
      DropDrop(inp, 1, 1);
    } else {
      return Err(UnknownAddressType(atype)), "";
    }
    ghost var b := BodyStart(atype);
    assert Sizable(inp) && addrLen == AddressLength(inp);
    assert c.rest == inp[b..];
    assert raw == if saveRaw then inp[..b] else [];
    buf := ReadBytes(c, addrLen + 2);
    if buf.Err? {
      return Err(buf.failure), "";
    }
    DropDrop(inp, b, addrLen + 2);
    if saveRaw {
      raw := raw + buf.value;
    }
    var t := Target(atype, buf.value[..addrLen], Port(buf.value[addrLen], buf.value[addrLen + 1]));
    assert AddressOutcome(inp, saveRaw).result == Ok(Decoded(t, raw));
    var host: string;
    if atype == AddrTypeIPv4 || atype == AddrTypeIPv6 {
      host := IPString(t.host, ipv6Text);
    } else {
      host := BytesToString(t.host);
    }
    assert host == HostText(t, ipv6Text);
    var port := Decimal(t.port);
    r := Ok(Decoded(t, raw));
    addr := JoinHostPort(host, port);
  }

  /** handleAuthMethods: version and N, then N method ids; answer [5, 0] if 0 is offered. */
  method HandleAuthMethods(c: Conn) returns (r: Result<()>)
    modifies c
    ensures r == AuthOutcome(old(c.rest)).result
    ensures c.rest == AuthOutcome(old(c.rest)).rest
    ensures c.written == old(c.written) + AuthOutcome(old(c.rest)).written
  {
    ghost var inp := c.rest;
    var buf := c.ReadFull(2);
    if buf.Err? {
      return Err(buf.failure);
    }
    var n := buf.value[1] as nat;
    buf := c.ReadFull(n);
    if buf.Err? {
      return Err(buf.failure);
    }
    DropDrop(inp, 2, n);
    DropTake(inp, 2, n);
    assert buf.value == Methods(inp);
    if NoAuth !in buf.value {
      return Err(NoAcceptableMethod);
    }
    c.Write(MethodReply);
    return Ok(());
  }

  /** handleConnectCommand: version, command and reserved; only connect is accepted. */
  method HandleConnectCommand(c: Conn) returns (r: Result<()>)
    modifies c`rest
    ensures r == CommandOutcome(old(c.rest)).result
    ensures c.rest == CommandOutcome(old(c.rest)).rest
  {
    var buf := c.ReadFull(3);
    if buf.Err? {
      return Err(buf.failure);
    }
    if buf.value[1] != CmdConnect {
      return Err(UnsupportedCommand(buf.value));
    }
    return Ok(());
  }

  /**
   * Handshake: method negotiation, the connect request, the address record
   * with capture, then the fixed reply. The first failure ends it, with an
   * empty address.
   */
  method Handshake(c: Conn, ipv6Text: seq<byte> -> string) returns (r: Result<Decoded>, addr: string)
    modifies c
    ensures r == HandshakeOutcome(old(c.rest)).result
    ensures addr == if r.Ok? then AddressText(r.value.target, ipv6Text) else ""
    ensures c.rest == HandshakeOutcome(old(c.rest)).rest
    ensures c.written == old(c.written) + HandshakeOutcome(old(c.rest)).written
  {
    ghost var inp := c.rest;
    ghost var a := AuthOutcome(inp);
    var auth := HandleAuthMethods(c);
    if auth.Err? {
      assert HandshakeOutcome(inp) == Step(Err(a.result.failure), a.rest, a.written);
      return Err(auth.failure), "";
    }
    ghost var d := CommandOutcome(a.rest);
    var cmd := HandleConnectCommand(c);
    if cmd.Err? {
      assert HandshakeOutcome(inp) == Step(Err(d.result.failure), d.rest, a.written);
      return Err(cmd.failure), "";
    }
    ghost var e := AddressOutcome(d.rest, true);
    r, addr := DecodeAddress(c, true, ipv6Text);
    if r.Err? {
      assert HandshakeOutcome(inp) == Step(e.result, e.rest, a.written);
      return;
    }
    assert HandshakeOutcome(inp) == Step(e.result, e.rest, a.written + ConnectReply);
    AppendTwice(old(c.written), a.written, ConnectReply);
    c.Write(ConnectReply);
  }
}
