# sockssl: the SOCKS5 front-end handshake and the address-record decoder

This project models the protocol core of sockssl, a TLS tunnelling proxy. The
front end speaks a subset of SOCKS Protocol Version 5 (RFC 1928) to local
applications. It does method selection (section 3), the CONNECT request
header (section 4), the address record ATYP / DST.ADDR / DST.PORT
(section 5) and a fixed success reply (section 6). The back end decodes the
same address record from the tunnel.

A connection is a `Stream.Conn`. It holds the bytes the peer has sent that are
not read yet (`rest`) and the bytes written back (`written`).
`Conn.ReadFull` models `io.ReadFull`: it yields exactly the next `n` bytes, or,
when fewer are left, it drains the rest and fails as `Truncated`.
Writes are appended to `written`.

Each Go function becomes a method in `SockSsl` that performs the same reads
and writes in the same order. Each method is proved to agree with a step
function over the unread bytes: `Codec.AddressOutcome`,
`Negotiation.AuthOutcome`, `Negotiation.CommandOutcome` or
`Negotiation.HandshakeOutcome`. A step gives the result, the bytes left unread
and the bytes written. The lemmas in `Codec` and `Negotiation` state what the
protocol promises about those step functions.

A decode yields a `Codec.Target`: the type tag, the address bytes and the
port. `DecodeAddress` and `Handshake` return, like the Go functions, the
address text and the captured `raw` bytes. The text is `Codec.AddressText` of
the target on success and empty on failure.

Host rendering:
- IPv4 is dotted decimal without leading zeros (`Text.IPv4Text`).
- The text of a 16-byte address is a function parameter `ipv6Text`, so nothing depends on its form.
- A domain's bytes are used as they are (`Text.BytesToString`).
- A port is rendered by `strconv.Itoa` (`Text.Decimal`).
- Joining follows `net.JoinHostPort` (`Text.JoinHostPort`).

The decimal, dotted-quad, domain and host:port renderings each have a reader
next to it: `DecimalValue`, `Fields`, `StringBytes` and `SplitAddr`. A lemma
shows that the reader gets back what was rendered. The IPv6 text is abstract,
so it has no reader.

A Go string is a byte string. In the model, a `char` with a code below 256
stands for the byte with that value.

Two behaviours of the code worth stating plainly:
- `Handshake` returns `DecodeAddress`'s own error unchanged (truncated or unknown type); it does not turn it into a SOCKS failure reply. `Negotiation.HandshakeFailure` states that every stage's failure and unread input are passed on unchanged.
- With N = 0 the method list is empty, so it lacks method 0 and the handshake is refused.

## Model

| member | source | states |
|---|---|---|
| `Stream.Conn.ReadFull` | sockssl.go:111-115 | all-or-nothing read: exactly the next n bytes are returned and removed from the unread input, or Truncated with the input drained |
| `Stream.Conn.Write` | sockssl.go:93-95 | the written bytes are appended to what the peer has received |
| `SockSsl.ReadBytes` | sockssl.go:111-115 | a read of n bytes returns the next n unread bytes, or fails as Truncated and drains the input |
| `SockSsl.DecodeAddress` | sockssl.go:18-63 | the result and the unread input afterwards are those of `AddressOutcome` on the unread bytes; the address is the target's host:port text on success and empty on failure; nothing is written |
| `SockSsl.HandleAuthMethods` | sockssl.go:81-97 | the result, the unread input afterwards and the bytes written are those of `AuthOutcome` |
| `SockSsl.HandleConnectCommand` | sockssl.go:99-109 | the result and the unread input afterwards are those of `CommandOutcome`; nothing is written |
| `SockSsl.Handshake` | sockssl.go:65-79 | the result, the unread input afterwards and the bytes written are those of `HandshakeOutcome`; the address is the target's text on success and empty on failure |
| `Codec.KnownType` | sockssl.go:12-16 | the constants AddrTypeIPv4 = 1, AddrTypeDomain = 3 and AddrTypeIPv6 = 4 are the known tags; `AddressRecord` states that any other tag fails as unknown type |
| `Codec.AddressLength` | sockssl.go:28-43 | addrLen is 4 for IPv4, 16 for IPv6 and the length byte for a domain; `RecordLength` and `AddressRecord` state the resulting record length and address bytes |
| `Codec.RecordLength` | sockssl.go:28-48 | the record is 1+4+2 bytes for IPv4, 1+16+2 for IPv6, and 1+1+L+2 for a domain whose length byte is L |
| `Codec.Port` | sockssl.go:60 | the port is below 65536, its high byte is the first port byte and its low byte the second (big-endian) |
| `Codec.AddressOutcome` | sockssl.go:18-63 | a decode never writes, and a decoded target is well formed: known tag, 4 or 16 address bytes for IPv4 or IPv6, fewer than 256 for a domain, a 16-bit port |
| `Codec.BlockOutcome` | sockssl.go:48-61 | the final read of addrLen + 2 bytes; `AddressRecord` states that it succeeds iff the record is complete, yields the address bytes and the big-endian port, and leaves the rest unread |
| `Codec.AddressRecord` | sockssl.go:18-63 | success iff the tag is 1, 3 or 4 and the whole record is there; success reads exactly the record; the target is the tag, the address bytes and the big-endian port; raw is the record when saveRaw is set and empty otherwise; an unknown tag fails after one byte; every other failure is Truncated and drains the input |
| `Codec.RecordAt` | sockssl.go:18-63 | a capturing decode that starts at position r of a stream ends at r plus the record length; it leaves the bytes after that unread and captures exactly the bytes in between |
| `Codec.HostText` | sockssl.go:55-59 | the host is the IP text for tags 1 and 4 and the domain's bytes as a string otherwise; `AddressTextParts` states the domain case and the unbracketed IPv4 case |
| `Codec.AddressText` | sockssl.go:55-61 | the address is the host text joined with the decimal port; `AddressTextParts` states that it splits back into both and `IPv4AddressTextInjective` that IPv4 text determines the target |
| `Codec.AddressTextParts` | sockssl.go:55-61 | the address splits back into the host text and the decimal port; the port reads back as a number below 65536; a domain host is its bytes unchanged; an IPv4 host is joined without brackets |
| `Codec.IPv4AddressTextInjective` | sockssl.go:55-61 | two IPv4 targets with the same address text are the same target |
| `Codec.CaptureDoesNotChangeTarget` | sockssl.go:25-54 | capture changes neither success, nor what is left unread, nor the target |
| `Codec.DecodeReadsOnlyTheRecord` | sockssl.go:18-63 | a complete record followed by any bytes decodes as the record alone and leaves exactly those bytes unread |
| `Codec.PrefixOfRecordIsTruncated` | sockssl.go:21-51 | every proper prefix of a complete record fails as Truncated, drains all of it and yields no target |
| `Codec.CaptureRoundTrip` | sockssl.go:18-63 | decoding the captured raw bytes again, with or without capture, gives the same target and uses every captured byte |
| `Codec.ExampleIPv4` | sockssl.go:29-61 | the record 01 5D B8 D8 22 01 BB decodes to 93.184.216.34 port 443, whose text is 93.184.216.34:443 |
| `Codec.ExampleIPv4Captured` | sockssl.go:25-54 | with capture and one extra byte after it, that record's raw is its 7 bytes, and the extra byte is left unread |
| `Codec.ExampleDomain` | sockssl.go:35-59 | the record 03 0B "example.com" 00 50 decodes to the domain example.com port 80, using every byte |
| `Codec.ExampleDomainText` | sockssl.go:58-61 | the text of that domain target is example.com:80 |
| `Codec.ExampleUnknownTags` | sockssl.go:44-46 | tags 0, 2, 5 and 255 fail as unknown type after one byte, whatever follows |
| `Negotiation.AuthOutcome` | sockssl.go:81-97 | the method reply 05 00 is written on success and nothing is written otherwise |
| `Negotiation.Methods` | sockssl.go:86-87 | the N method ids after the version and count bytes; `AuthMessage` states that acceptance means 0 is among them |
| `Negotiation.AuthMessage` | sockssl.go:81-97 | success iff the 2 header bytes and the N method ids (N is the second byte) are all there and one of them is 0, so never when N = 0; it writes 05 00 exactly on success; it reads 2+N bytes, or drains the input when they are not all there; the failure is NoAcceptableMethod or Truncated accordingly; the version byte is not checked |
| `Negotiation.CommandOutcome` | sockssl.go:99-109 | reading the connect request never writes |
| `Negotiation.CommandMessage` | sockssl.go:99-109 | success iff 3 bytes are there and the middle one is 1; it reads 3 bytes, or drains the input when fewer are there; a command other than 1 fails with the 3 header bytes; the version and reserved bytes are ignored |
| `Negotiation.HandshakeOutcome` | sockssl.go:65-79 | a handshake that succeeds reports a well-formed target |
| `Negotiation.HandshakeReachesRecord` | sockssl.go:65-74 | a successful handshake saw method 0 offered and command 1, and its outcome is the capturing decode of the bytes after the 3-byte request header, with 05 00 and the connect reply written |
| `Negotiation.HandshakeSuccess` | sockssl.go:65-79 | a successful handshake wrote exactly 05 00 then 05 00 00 01 00 00 00 00 00 00; it stopped at the end of the address record and left the rest unread; its raw is only the record's bytes |
| `Negotiation.HandshakeFailure` | sockssl.go:65-79 | a failed handshake wrote 05 00 iff method negotiation succeeded, and never the connect reply; its failure and unread input are those of the first stage that failed, unchanged (method negotiation, the connect request, or the capturing decode of the record after it); NoAcceptableMethod iff the method list was complete and lacked 0; an unsupported command carries the 3 request bytes after the method ids; an unknown type carries the first record byte |
| `Negotiation.TunnelReplay` | sockssl.go:72-74 | the captured raw bytes replayed to the back end decode, without capture, to the same target and use every byte |
| `Negotiation.ExampleOnlyMethodOne` | sockssl.go:86-92 | a client that offers only method 1 is refused after 3 bytes, with nothing written |
| `Negotiation.ExampleConnect` | sockssl.go:65-79 | the exchange 05 01 00, 05 01 00, 01 5D B8 D8 22 01 BB, 16 yields 93.184.216.34 port 443 with raw 01 5D B8 D8 22 01 BB, leaves 16 unread, and writes 05 00 05 00 00 01 00 00 00 00 00 00 |
| `Text.Decimal` | sockssl.go:60 | strconv.Itoa of a non-negative value is a non-empty string of digits, with a single digit exactly below 10 and no leading zero |
| `Text.DecimalRoundTrip` | sockssl.go:60 | reading the decimal text back gives the number |
| `Text.IPv4Text` | sockssl.go:56 | net.IP.String of 4 bytes; `IPv4TextFields`, `IPv4TextInjective` and `IPv4TextHasNoColon` state that it is four decimal fields, one per octet, that distinct addresses get distinct text and that it holds no ':' |
| `Text.IPString` | sockssl.go:56 | net.IP.String of the 4- or 16-byte address: the dotted quad for 4 bytes and the abstract ipv6Text for 16 |
| `Text.IPv4TextFields` | sockssl.go:56 | the IPv4 text has four dot-separated fields, and each one reads back as its octet |
| `Text.IPv4TextInjective` | sockssl.go:56 | two IPv4 addresses with the same text are the same address |
| `Text.IPv4TextHasNoColon` | sockssl.go:56 | IPv4 text contains no ':' |
| `Text.BytesToString` | sockssl.go:58 | the domain string has one character per byte, and each has the byte's value |
| `Text.BytesStringRoundTrip` | sockssl.go:58 | the domain string read back as bytes gives the domain's bytes unchanged |
| `Text.JoinHostPort` | sockssl.go:61 | net.JoinHostPort brackets a host holding ':' and puts ':' before the port; `SplitJoin` states that splitting gives back host and port |
| `Text.UnbracketJoin` | sockssl.go:61 | removing brackets undoes exactly the bracketing that JoinHostPort applies to a host holding ':' |
| `Text.SplitJoin` | sockssl.go:61 | splitting a joined host:port at its last ':', and unbracketing a host that holds ':', gives back the host and the port |

## Left out

- `IOCopyLoop` (sockssl.go:117-128): two goroutines joined through a channel, with `io.Copy` and close propagation. It is concurrency and I/O, not sequential logic.
- cmd/client.go and cmd/server.go are not part of this model. They cover flag parsing, certificate loading, the TLS configuration, the listen, accept and dial loops, goroutines, logging and timing. The one protocol fact they add is that the client writes `raw` once before relaying. `Negotiation.TunnelReplay` states what the back end makes of that write.
- The exact IPv6 text of `net.IP.String()` (RFC 5952 compression, IPv4-mapped forms) comes from a library outside this model. It is the abstract parameter `ipv6Text`.
- Write failures: every write succeeds and is appended to `written`, so the `c.Write` error paths are not modelled.
- Read errors other than end of stream, and blocking: the peer sends `input` and then closes. `Truncated` stands for `io.EOF`, `io.ErrUnexpectedEOF` and every other read error alike.
- The partial `raw` that `DecodeAddress` returns next to an error is not modelled, because every caller ignores `raw` when `err` is set. A failure carries only its kind.
- The error message texts, such as the `%x` formatting of the tag and the command header, are not modelled. The failure kinds carry the tag byte or the 3 header bytes instead.
