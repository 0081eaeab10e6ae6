/**
 * The two client-facing messages before the address record (method selection
 * and the connect request) and the whole handshake, as functions of the bytes
 * the local client sends. SockSsl.Handshake is proved to do exactly this.
 */
module Negotiation {
  import opened Wire
  import opened Text
  import opened Codec

  /** Version 5, method 0: no authentication. */
  const MethodReply: seq<byte> := [5, 0]

  /** Version 5, succeeded, reserved, IPv4, address 0.0.0.0, port 0. */
  const ConnectReply: seq<byte> := [5, 0, 0, 1, 0, 0, 0, 0, 0, 0]

  const NoAuth: byte := 0
  const CmdConnect: byte := 1

  /** The version and method-count bytes are there, and so are the N method ids. */
  predicate MethodsComplete(inp: seq<byte>)
  {
    |inp| >= 2 && |inp| >= 2 + inp[1] as int
  }

  function Methods(inp: seq<byte>): seq<byte>
    requires MethodsComplete(inp)
  {
    inp[2..2 + inp[1] as int]
  }

  /** handleAuthMethods against the bytes inp pending on the connection. */
  function AuthOutcome(inp: seq<byte>): (s: Step<()>)
    ensures s.written == if s.result.Ok? then MethodReply else []
  {
    if |inp| < 2 then Step(Err(Truncated), [], [])
    else
      var n := inp[1] as int;
      if |inp| < 2 + n then Step(Err(Truncated), [], [])
      else if NoAuth !in inp[2..2 + n] then Step(Err(NoAcceptableMethod), inp[2 + n..], [])
      else Step(Ok(()), inp[2 + n..], MethodReply)
  }

  /**
   * Method negotiation reads version and N, then N method ids; it accepts iff
   * one of them is 0 (so never when N is 0), and then answers [5, 0], writing
   * nothing otherwise. The version byte is not looked at. A short message
   * drains the input.
   */
  lemma AuthMessage(inp: seq<byte>)
    ensures var s := AuthOutcome(inp);
      && (s.result.Ok? <==> MethodsComplete(inp) && NoAuth in Methods(inp))
      && s.written == (if s.result.Ok? then MethodReply else [])
      && s.rest == (if MethodsComplete(inp) then inp[2 + inp[1] as int..] else [])
      && (s.result.Err? ==> s.result.failure == if MethodsComplete(inp) then NoAcceptableMethod else Truncated)
  {
  }

  /** handleConnectCommand against the bytes inp pending on the connection. */
  function CommandOutcome(inp: seq<byte>): (s: Step<()>)
    ensures s.written == []
  {
    if |inp| < 3 then Step(Err(Truncated), [], [])
    else if inp[1] != CmdConnect then Step(Err(UnsupportedCommand(inp[..3])), inp[3..], [])
    else Step(Ok(()), inp[3..], [])
  }

  /**
   * The connect request is read as version, command and reserved; it is
   * accepted iff the command is connect, and otherwise refused with the three
   * bytes read. Version and reserved bytes are not looked at.
   */
  lemma CommandMessage(inp: seq<byte>)
    ensures var s := CommandOutcome(inp);
      && s.written == []
      && (s.result.Ok? <==> |inp| >= 3 && inp[1] == CmdConnect)
      && s.rest == (if |inp| >= 3 then inp[3..] else [])
      && (s.result.Err? ==> s.result.failure == if |inp| >= 3 then UnsupportedCommand(inp[..3]) else Truncated)
  {
  }

  /** Handshake: the three readers in turn, stopping at the first failure, then the fixed reply. */
  function HandshakeOutcome(inp: seq<byte>): (s: Step<Decoded>)
    ensures s.result.Ok? ==> WellFormed(s.result.value.target)
  {
    var a := AuthOutcome(inp);
    if a.result.Err? then Step(Err(a.result.failure), a.rest, a.written)
    else
      var c := CommandOutcome(a.rest);
      if c.result.Err? then Step(Err(c.result.failure), c.rest, a.written)
      else
        var d := AddressOutcome(c.rest, true);
        if d.result.Err? then Step(d.result, d.rest, a.written)
        else Step(d.result, d.rest, a.written + ConnectReply)
  }

  /** Where the address record starts: after the method message and the 3-byte request header. */
  function RecordStart(inp: seq<byte>): nat
    requires MethodsComplete(inp)
  {
    2 + inp[1] as int + 3
  }

  /**
   * A handshake that succeeds has passed method negotiation with method 0
   * offered and a connect request; its outcome is then the capturing decode
   * of what follows the request, with [5, 0] and the connect reply written.
   */
  lemma HandshakeReachesRecord(inp: seq<byte>)
    requires HandshakeOutcome(inp).result.Ok?
    ensures MethodsComplete(inp) && NoAuth in Methods(inp)
    ensures RecordStart(inp) <= |inp| && inp[RecordStart(inp) - 2] == CmdConnect
    ensures var d := AddressOutcome(inp[RecordStart(inp)..], true);
      HandshakeOutcome(inp) == Step(d.result, d.rest, MethodReply + ConnectReply)
  {
    AuthMessage(inp);
    var a := AuthOutcome(inp);
    CommandMessage(a.rest);
    var r := RecordStart(inp);
    assert a.rest[1] == inp[r - 2];
    assert a.rest[3..] == inp[r..];
  }

  /**
   * A successful handshake wrote [5, 0] then the fixed 10-byte reply; it read
   * up to the end of the address record and left the rest for the tunnel; and
   * its captured bytes are the address record alone, not the method or
   * command bytes.
   */
  lemma HandshakeSuccess(inp: seq<byte>)
    requires HandshakeOutcome(inp).result.Ok?
    ensures MethodsComplete(inp) && RecordStart(inp) <= |inp| && Sizable(inp[RecordStart(inp)..])
    ensures var s := HandshakeOutcome(inp);
      && s.written == [5, 0, 5, 0, 0, 1, 0, 0, 0, 0, 0, 0]
      && var e := RecordStart(inp) + RecordLength(inp[RecordStart(inp)..]);
         e <= |inp| && s.rest == inp[e..] && s.result.value.raw == inp[RecordStart(inp)..e]
  {
    HandshakeReachesRecord(inp);
    RecordAt(inp, RecordStart(inp));
    assert MethodReply + ConnectReply == [5, 0, 5, 0, 0, 1, 0, 0, 0, 0, 0, 0];
  }

  /**
   * A failed handshake wrote the method reply iff method negotiation itself
   * succeeded, and never the connect reply. The failure and the unread input
   * are those of the first stage that failed, unchanged: method negotiation,
   * the connect request, or the capturing decode of the record after it.
   * Each failure names the stage it came from: a refused method list, a
   * refused command whose 3 header bytes follow the method ids, or an
   * unknown tag in the first record byte.
   */
  lemma HandshakeFailure(inp: seq<byte>)
    requires HandshakeOutcome(inp).result.Err?
    ensures var s := HandshakeOutcome(inp);
      s.written == if AuthOutcome(inp).result.Ok? then MethodReply else []
    ensures var f := HandshakeOutcome(inp).result.failure;
      f.NoAcceptableMethod? <==> MethodsComplete(inp) && NoAuth !in Methods(inp)
    ensures var f := HandshakeOutcome(inp).result.failure;
      f.UnsupportedCommand? ==>
        && MethodsComplete(inp) && NoAuth in Methods(inp) && RecordStart(inp) <= |inp|
        && f.header == inp[RecordStart(inp) - 3..RecordStart(inp)] && f.header[1] != CmdConnect
    ensures var a := AuthOutcome(inp);
      a.result.Err? ==> HandshakeOutcome(inp).result.failure == a.result.failure && HandshakeOutcome(inp).rest == a.rest
    ensures var a := AuthOutcome(inp);
      var c := CommandOutcome(a.rest);
      a.result.Ok? && c.result.Err? ==>
        HandshakeOutcome(inp).result.failure == c.result.failure && HandshakeOutcome(inp).rest == c.rest
    ensures AuthOutcome(inp).result.Ok? && CommandOutcome(AuthOutcome(inp).rest).result.Ok? ==>
      && RecordStart(inp) <= |inp|
      && var d := AddressOutcome(inp[RecordStart(inp)..], true);
         HandshakeOutcome(inp).result == d.result && HandshakeOutcome(inp).rest == d.rest
    ensures var f := HandshakeOutcome(inp).result.failure;
      f.UnknownAddressType? ==>
        && MethodsComplete(inp) && RecordStart(inp) < |inp|
        && inp[RecordStart(inp) - 2] == CmdConnect
        && f.tag == inp[RecordStart(inp)] && !KnownType(f.tag)
  {
    AuthMessage(inp);
    var a := AuthOutcome(inp);
    if a.result.Ok? {
      CommandMessage(a.rest);
      var c := CommandOutcome(a.rest);
      var r := RecordStart(inp);
      if |a.rest| >= 3 {
        assert a.rest[..3] == inp[r - 3..r];
        assert a.rest[1] == inp[r - 2];
      }
      if c.result.Ok? {
        AddressRecord(c.rest, true);
        assert c.rest == inp[r..];
      }
    }
  }

  /**
   * What the front end replays into the tunnel, decoded by the back end without
   * capture, gives the target the handshake reported, hence the same address
   * text, using every byte.
   */
  lemma TunnelReplay(inp: seq<byte>)
    requires HandshakeOutcome(inp).result.Ok?
    ensures var d := HandshakeOutcome(inp).result.value;
      AddressOutcome(d.raw, false) == Step(Ok(Decoded(d.target, [])), [], [])
  {
    var a := AuthOutcome(inp);
    var c := CommandOutcome(a.rest);
    CaptureRoundTrip(c.rest, false);
  }

  /** A client offering only method 1 is refused with nothing written. */
  lemma ExampleOnlyMethodOne(rest: seq<byte>)
    ensures HandshakeOutcome([5, 1, 1] + rest) == Step(Err(NoAcceptableMethod), rest, [])
  {
    var inp: seq<byte> := [5, 1, 1] + rest;
    assert Methods(inp) == [1];
    assert inp[3..] == rest;
  }

  /** The full exchange for 93.184.216.34:443, with a payload byte left for the tunnel. */
  lemma ExampleConnect()
    ensures HandshakeOutcome([5, 1, 0, 5, 1, 0, 1, 93, 184, 216, 34, 0x01, 0xBB, 0x16])
      == Step(Ok(Decoded(Target(AddrTypeIPv4, [93, 184, 216, 34], 443), [1, 93, 184, 216, 34, 0x01, 0xBB])), [0x16],
              [5, 0, 5, 0, 0, 1, 0, 0, 0, 0, 0, 0])
  {
    var rec: seq<byte> := [1, 93, 184, 216, 34, 0x01, 0xBB, 0x16];
    var req: seq<byte> := [5, 1, 0] + rec;
    var inp: seq<byte> := [5, 1, 0] + req;
    assert inp == [5, 1, 0, 5, 1, 0, 1, 93, 184, 216, 34, 0x01, 0xBB, 0x16];
    assert inp[3..] == req && req[3..] == rec;
    assert Methods(inp)[0] == 0;
    assert AuthOutcome(inp) == Step(Ok(()), req, MethodReply);
    assert CommandOutcome(req) == Step(Ok(()), rec, []);
    assert MethodReply + ConnectReply == [5, 0, 5, 0, 0, 1, 0, 0, 0, 0, 0, 0];
    ExampleIPv4Captured();
  }
}
