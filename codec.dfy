/**
 * The address record shared by both ends of the tunnel: a type tag, for a
 * domain name a length byte, the address bytes and a big-endian port.
 * AddressOutcome is what DecodeAddress reads from the bytes pending on a
 * connection; AddressText is the host:port text it builds from what it read.
 * The lemmas below state what such a decode promises.
 */
module Codec {
  import opened Wire
  import opened Text

  const AddrTypeIPv4: byte := 1
  const AddrTypeDomain: byte := 3
  const AddrTypeIPv6: byte := 4

  /** net.IPv4len and net.IPv6len */
  const IPv4Len: nat := 4
  const IPv6Len: nat := 16

  predicate KnownType(tag: byte)
  {
    tag == AddrTypeIPv4 || tag == AddrTypeDomain || tag == AddrTypeIPv6
  }

  /** A destination as read off the wire: type tag, address bytes, port. */
  datatype Target = Target(tag: byte, host: seq<byte>, port: nat)

  /** A target that a record can carry: known tag, IP lengths right, 16-bit port. */
  predicate WellFormed(t: Target)
  {
    && KnownType(t.tag)
    && (t.tag == AddrTypeIPv4 ==> |t.host| == IPv4Len)
    && (t.tag == AddrTypeIPv6 ==> |t.host| == IPv6Len)
    && (t.tag == AddrTypeDomain ==> |t.host| < 256)
    && t.port < 65536
  }

  /** What a decode yields: the target and the bytes it captured. */
  datatype Decoded = Decoded(target: Target, raw: seq<byte>)

  /** The record's bytes can be sized: a known tag, and the length byte of a domain is there. */
  predicate Sizable(inp: seq<byte>)
  {
    |inp| >= 1 && KnownType(inp[0]) && (inp[0] == AddrTypeDomain ==> |inp| >= 2)
  }

  /** Where the address bytes start: after the tag, and after the length byte of a domain. */
  function BodyStart(tag: byte): nat
  {
    if tag == AddrTypeDomain then 2 else 1
  }

  /** addrLen in the source: 4, 16, or the domain's length byte. */
  function AddressLength(inp: seq<byte>): nat
    requires Sizable(inp)
  {
    if inp[0] == AddrTypeIPv4 then IPv4Len
    else if inp[0] == AddrTypeIPv6 then IPv6Len
    else inp[1] as int
  }

  /** The whole record's length, fixed by the tag (and a domain's length byte) before the port is read. */
  function RecordLength(inp: seq<byte>): (n: nat)
    requires Sizable(inp)
    ensures inp[0] == AddrTypeIPv4 ==> n == 1 + IPv4Len + 2
    ensures inp[0] == AddrTypeIPv6 ==> n == 1 + IPv6Len + 2
    ensures inp[0] == AddrTypeDomain ==> n == 1 + 1 + inp[1] as int + 2
  {
    BodyStart(inp[0]) + AddressLength(inp) + 2
  }

  /** The big-endian port of its two bytes. */
  function Port(hi: byte, lo: byte): (p: nat)
    ensures p < 65536
    ensures p / 256 == hi as int && p % 256 == lo as int
  {
    hi as int * 256 + lo as int
  }

  /**
   * The last read of DecodeAddress: len + 2 bytes from p, the bytes pending
   * after the header, with raw holding what was captured of the header.
   */
  function BlockOutcome(tag: byte, len: nat, raw: seq<byte>, p: seq<byte>, saveRaw: bool): Step<Decoded>
  {
    if |p| < len + 2 then Step(Err(Truncated), [], [])
    else
      var block := p[..len + 2];
      Step(Ok(Decoded(Target(tag, block[..len], Port(block[len], block[len + 1])),
                      if saveRaw then raw + block else raw)), p[len + 2..], [])
  }

  /** DecodeAddress's reads against the bytes inp still pending on the connection. */
  function AddressOutcome(inp: seq<byte>, saveRaw: bool): (s: Step<Decoded>)
    ensures s.written == []
    ensures s.result.Ok? ==> WellFormed(s.result.value.target)
  {
    if |inp| < 1 then Step(Err(Truncated), [], [])
    else if !KnownType(inp[0]) then Step(Err(UnknownAddressType(inp[0])), inp[1..], [])
    else if inp[0] == AddrTypeDomain && |inp| < 2 then Step(Err(Truncated), [], [])
    else
      var b := BodyStart(inp[0]);
      BlockOutcome(inp[0], AddressLength(inp), if saveRaw then inp[..b] else [], inp[b..], saveRaw)
  }

  /**
   * A decode succeeds exactly when the record is sizable and complete, and
   * then reads the record and nothing more; the target is the tag, the
   * address bytes as they are and the big-endian port; it captures what it
   * read iff saveRaw. An unknown tag costs one byte; a short read drains the
   * input.
   */
  lemma AddressRecord(inp: seq<byte>, saveRaw: bool)
    ensures var s := AddressOutcome(inp, saveRaw);
      s.result.Ok? <==> Sizable(inp) && RecordLength(inp) <= |inp|
    ensures var s := AddressOutcome(inp, saveRaw);
      s.result.Ok? ==>
      var n := RecordLength(inp);
      && s.rest == inp[n..]
      && s.result.value.target == Target(inp[0], inp[BodyStart(inp[0])..n - 2], 256 * inp[n - 2] as int + inp[n - 1] as int)
      && WellFormed(s.result.value.target)
      && s.result.value.raw == if saveRaw then inp[..n] else []
    ensures var s := AddressOutcome(inp, saveRaw);
      s.result.Err? && |inp| >= 1 && !KnownType(inp[0]) ==>
      s.result.failure == UnknownAddressType(inp[0]) && s.rest == inp[1..]
    ensures var s := AddressOutcome(inp, saveRaw);
      s.result.Err? && (|inp| == 0 || KnownType(inp[0])) ==>
      s.result.failure == Truncated && s.rest == []
  {
    if Sizable(inp) && RecordLength(inp) <= |inp| {
      var b := BodyStart(inp[0]);
      var n := RecordLength(inp);
      var p := inp[b..];
      assert p[..n - b] == inp[b..n];
      assert p[n - b..] == inp[n..];
      assert inp[..b] + inp[b..n] == inp[..n];
      assert inp[b..n][..n - b - 2] == inp[b..n - 2];
    }
  }

  /** A capturing decode of the bytes of inp from r on, stated in positions of inp. */
  lemma RecordAt(inp: seq<byte>, r: nat)
    requires r <= |inp| && AddressOutcome(inp[r..], true).result.Ok?
    ensures Sizable(inp[r..])
    ensures var e := r + RecordLength(inp[r..]);
      var s := AddressOutcome(inp[r..], true);
      e <= |inp| && s.rest == inp[e..] && s.result.value.raw == inp[r..e]
  {
    var rec := inp[r..];
    AddressRecord(rec, true);
    var n := RecordLength(rec);
    assert rec[n..] == inp[r + n..];
    assert rec[..n] == inp[r..r + n];
  }

  /** The host text of a target: an IP literal, or a domain's bytes as they are. */
  function HostText(t: Target, ipv6Text: seq<byte> -> string): string
    requires WellFormed(t)
  {
    if t.tag == AddrTypeIPv4 || t.tag == AddrTypeIPv6 then IPString(t.host, ipv6Text) else BytesToString(t.host)
  }

  /** The text DecodeAddress returns: the host text joined with the decimal port. */
  function AddressText(t: Target, ipv6Text: seq<byte> -> string): string
    requires WellFormed(t)
  {
    JoinHostPort(HostText(t, ipv6Text), Decimal(t.port))
  }

  /**
   * The address text is the host text joined with the decimal port; splitting
   * it recovers both, and the port read back lies in 0..65535. A domain's host
   * text is its bytes unchanged, and an IPv4 host is joined without brackets.
   */
  lemma AddressTextParts(t: Target, ipv6Text: seq<byte> -> string)
    requires WellFormed(t)
    ensures SplitAddr(AddressText(t, ipv6Text)) == Some(HostPort(HostText(t, ipv6Text), Decimal(t.port)))
    ensures DecimalValue(Decimal(t.port)) == t.port
    ensures t.port < 65536
    ensures t.tag == AddrTypeDomain ==> HostText(t, ipv6Text) == BytesToString(t.host)
    ensures t.tag == AddrTypeIPv4 ==> AddressText(t, ipv6Text) == IPv4Text(t.host) + ":" + Decimal(t.port)
  {
    DecimalHasNoSeparator(t.port);
    DecimalRoundTrip(t.port);
    SplitJoin(HostText(t, ipv6Text), Decimal(t.port));
    if t.tag == AddrTypeIPv4 {
      IPv4TextHasNoColon(t.host);
    }
  }

  /**
   * Distinct IPv4 targets get distinct text: the text of an IPv4 record
   * determines its address bytes and its port.
   */
  lemma IPv4AddressTextInjective(s: Target, t: Target, ipv6Text: seq<byte> -> string)
    requires WellFormed(s) && WellFormed(t) && s.tag == AddrTypeIPv4 && t.tag == AddrTypeIPv4
    ensures AddressText(s, ipv6Text) == AddressText(t, ipv6Text) ==> s == t
  {
    AddressTextParts(s, ipv6Text);
    AddressTextParts(t, ipv6Text);
    IPv4TextInjective(s.host, t.host);
  }

  /** What is captured changes neither success, nor what is left unread, nor the target. */
  lemma CaptureDoesNotChangeTarget(inp: seq<byte>)
    ensures AddressOutcome(inp, true).result.Ok? == AddressOutcome(inp, false).result.Ok?
    ensures AddressOutcome(inp, true).rest == AddressOutcome(inp, false).rest
    ensures AddressOutcome(inp, true).result.Ok? ==>
      AddressOutcome(inp, true).result.value.target == AddressOutcome(inp, false).result.value.target
  {
  }

  /**
   * Decoding looks at nothing past the record: a complete record followed by
   * any other bytes decodes as the record alone does, and leaves exactly those
   * other bytes unread, for the tunnel.
   */
  lemma DecodeReadsOnlyTheRecord(rec: seq<byte>, rest: seq<byte>, saveRaw: bool)
    requires Sizable(rec) && RecordLength(rec) == |rec|
    ensures AddressOutcome(rec, saveRaw).result.Ok?
    ensures AddressOutcome(rec + rest, saveRaw) == Step(AddressOutcome(rec, saveRaw).result, rest, [])
  {
    AddressRecord(rec, saveRaw);
    var n := |rec|;
    var q := rec + rest;
    assert q[0] == rec[0];
    assert rec[0] == AddrTypeDomain ==> q[1] == rec[1];
    assert Sizable(q) && RecordLength(q) == n;
    AddressRecord(q, saveRaw);
    var b := BodyStart(rec[0]);
    assert q[b..n - 2] == rec[b..n - 2];
    assert q[n - 2] == rec[n - 2] && q[n - 1] == rec[n - 1];
    assert q[..n] == rec[..n];
    assert q[n..] == rest;
    var s1 := AddressOutcome(q, saveRaw);
    var s2 := AddressOutcome(rec, saveRaw);
    assert s1.result.value.target == s2.result.value.target;
    assert s1.result.value.raw == s2.result.value.raw;
  }

  /**
   * Every proper prefix of a complete record is a truncated record: it fails
   * with Truncated after draining all of it, never with an address.
   */
  lemma PrefixOfRecordIsTruncated(inp: seq<byte>, k: nat, saveRaw: bool)
    requires Sizable(inp) && RecordLength(inp) <= |inp|
    requires k < RecordLength(inp)
    ensures AddressOutcome(inp[..k], saveRaw) == Step(Err(Truncated), [], [])
  {
    var q := inp[..k];
    AddressRecord(q, saveRaw);
    if k >= 1 {
      assert q[0] == inp[0];
      if k >= 2 {
        assert q[1] == inp[1];
        assert Sizable(q) && RecordLength(q) == RecordLength(inp);
      }
    }
  }

  /**
   * Capture round-trips: the bytes captured by a decode, decoded again with or
   * without capture, give the same target, hence the same address text, and
   * use all of them.
   */
  lemma CaptureRoundTrip(inp: seq<byte>, saveAgain: bool)
    requires AddressOutcome(inp, true).result.Ok?
    ensures var d := AddressOutcome(inp, true).result.value;
      AddressOutcome(d.raw, saveAgain) == Step(Ok(Decoded(d.target, if saveAgain then d.raw else [])), [], [])
  {
    AddressRecord(inp, true);
    var n := RecordLength(inp);
    var rec := inp[..n];
    assert rec[0] == inp[0];
    assert inp[0] == AddrTypeDomain ==> rec[1] == inp[1];
    assert Sizable(rec) && RecordLength(rec) == |rec|;
    DecodeReadsOnlyTheRecord(rec, inp[n..], true);
    assert rec + inp[n..] == inp;
    DecodeReadsOnlyTheRecord(rec, [], saveAgain);
    assert rec + [] == rec;
    CaptureDoesNotChangeTarget(rec);
  }

  lemma ExampleOctets()
    ensures Decimal(93) == "93" && Decimal(184) == "184" && Decimal(216) == "216"
    ensures Decimal(34) == "34" && Decimal(443) == "443"
  {
    assert Decimal(9) == "9" && Decimal(1) == "1" && Decimal(18) == "18";
    assert Decimal(2) == "2" && Decimal(21) == "21" && Decimal(3) == "3";
    assert Decimal(4) == "4" && Decimal(44) == "44";
  }

  lemma ExampleDotted()
    ensures Dotted(["93", "184", "216", "34"]) == "93.184.216.34"
  {
    var parts := ["93", "184", "216", "34"];
    assert parts[1..] == ["184", "216", "34"] && parts[1..][1..] == ["216", "34"];
    assert parts[1..][1..][1..] == ["34"];
  }

  /** The IPv4 record of 93.184.216.34 port 443. */
  lemma ExampleIPv4(ipv6Text: seq<byte> -> string)
    ensures AddressOutcome([1, 93, 184, 216, 34, 0x01, 0xBB], false)
      == Step(Ok(Decoded(Target(AddrTypeIPv4, [93, 184, 216, 34], 443), [])), [], [])
    ensures AddressText(Target(AddrTypeIPv4, [93, 184, 216, 34], 443), ipv6Text) == "93.184.216.34:443"
  {
    var inp: seq<byte> := [1, 93, 184, 216, 34, 0x01, 0xBB];
    AddressRecord(inp, false);
    assert inp[1..5] == [93, 184, 216, 34];
    ExampleOctets();
    ExampleDotted();
    assert IPv4Text([93, 184, 216, 34]) == "93.184.216.34";
    IPv4TextHasNoColon([93, 184, 216, 34]);
  }

  /** The text of a domain target is its bytes, one character each, then the port. */
  lemma ExampleDomainText(ipv6Text: seq<byte> -> string)
    ensures AddressText(Target(AddrTypeDomain, [101, 120, 97, 109, 112, 108, 101, 46, 99, 111, 109], 80), ipv6Text)
      == "example.com:80"
  {
    assert BytesToString([101, 120, 97, 109, 112, 108, 101, 46, 99, 111, 109]) == "example.com";
    assert Decimal(8) == "8" && Decimal(80) == "80";
  }

  /** The same record captured, with one byte after it left for the tunnel. */
  lemma ExampleIPv4Captured()
    ensures AddressOutcome([1, 93, 184, 216, 34, 0x01, 0xBB, 0x16], true)
      == Step(Ok(Decoded(Target(AddrTypeIPv4, [93, 184, 216, 34], 443), [1, 93, 184, 216, 34, 0x01, 0xBB])), [0x16], [])
  {
    var inp: seq<byte> := [1, 93, 184, 216, 34, 0x01, 0xBB, 0x16];
    AddressRecord(inp, true);
    assert inp[1..5] == [93, 184, 216, 34];
    assert inp[..7] == [1, 93, 184, 216, 34, 0x01, 0xBB];
    assert inp[7..] == [0x16];
  }

  /** The domain record of example.com port 80. */
  lemma ExampleDomain()
    ensures AddressOutcome([3, 11, 101, 120, 97, 109, 112, 108, 101, 46, 99, 111, 109, 0x00, 0x50], false)
      == Step(Ok(Decoded(Target(AddrTypeDomain, [101, 120, 97, 109, 112, 108, 101, 46, 99, 111, 109], 80), [])), [], [])
  {
    var inp: seq<byte> := [3, 11, 101, 120, 97, 109, 112, 108, 101, 46, 99, 111, 109, 0x00, 0x50];
    AddressRecord(inp, false);
    assert inp[2..13] == [101, 120, 97, 109, 112, 108, 101, 46, 99, 111, 109];
  }

  /** Tags 0, 2, 5 and 255 are refused after one byte. */
  lemma ExampleUnknownTags(rest: seq<byte>)
    ensures forall t: byte :: t == 0 || t == 2 || t == 5 || t == 255 ==>
      AddressOutcome([t] + rest, false) == Step(Err(UnknownAddressType(t)), rest, [])
  {
  }
}
