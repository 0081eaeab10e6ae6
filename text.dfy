/**
 * The textual forms the decoder produces: decimal numbers (strconv.Itoa),
 * dotted-quad IPv4 literals (net.IP.String on 4 bytes), domain bytes taken as
 * a string, and host:port joining (net.JoinHostPort). Each rendering has a
 * reader beside it and a lemma that the reader recovers what was rendered.
 *
 * A Go string is a sequence of bytes; here a `char` whose code is below 256
 * stands for the byte with that value.
 */
module Text {
  import opened Wire

  predicate IsDigit(c: char) { '0' <= c <= '9' }

  predicate AllDigits(s: string) { forall i :: 0 <= i < |s| ==> IsDigit(s[i]) }

  function DigitChar(d: nat): (c: char)
    requires d < 10
    ensures IsDigit(c) && c as int - '0' as int == d
  {
    ('0' as int + d) as char
  }

  /** strconv.Itoa on a non-negative value: shortest decimal form, no sign. */
  function Decimal(n: nat): (s: string)
    ensures |s| >= 1 && AllDigits(s)
    ensures s[0] == '0' ==> n == 0
    ensures n < 10 <==> |s| == 1
    decreases n
  {
    if n < 10 then [DigitChar(n)] else Decimal(n / 10) + [DigitChar(n % 10)]
  }

  /** The value of a string of decimal digits (the reader of Decimal). */
  function DecimalValue(s: string): nat
    requires AllDigits(s)
  {
    if s == [] then 0 else 10 * DecimalValue(s[..|s| - 1]) + (s[|s| - 1] as int - '0' as int)
  }

  lemma {:induction false} DecimalRoundTrip(n: nat)
    ensures DecimalValue(Decimal(n)) == n
    decreases n
  {
    if n >= 10 {
      var s := Decimal(n);
      assert s[..|s| - 1] == Decimal(n / 10);
      DecimalRoundTrip(n / 10);
    }
  }

  lemma DecimalHasNoSeparator(n: nat)
    ensures ':' !in Decimal(n) && '.' !in Decimal(n)
  {
  }

  /** The parts joined with '.' between them. */
  function Dotted(parts: seq<string>): string
    requires |parts| >= 1
    decreases |parts|
  {
    if |parts| == 1 then parts[0] else parts[0] + "." + Dotted(parts[1..])
  }

  lemma {:induction false} DottedAvoids(parts: seq<string>, c: char)
    requires |parts| >= 1 && c != '.'
    requires forall i :: 0 <= i < |parts| ==> c !in parts[i]
    ensures c !in Dotted(parts)
    decreases |parts|
  {
    if |parts| > 1 {
      DottedAvoids(parts[1..], c);
    }
  }

  /** The fields of s between '.' separators (the reader of Dotted). */
  function Fields(s: string): (r: seq<string>)
    ensures |r| >= 1
    decreases |s|
  {
    if s == [] then [[]]
    else
      var rest := Fields(s[1..]);
      if s[0] == '.' then [[]] + rest else [[s[0]] + rest[0]] + rest[1..]
  }

  lemma {:induction false} FieldsOfPlain(x: string)
    requires '.' !in x
    ensures Fields(x) == [x]
    decreases |x|
  {
    if x != [] {
      FieldsOfPlain(x[1..]);
      assert x == [x[0]] + x[1..];
    }
  }

  lemma {:induction false} FieldsOfJoin(x: string, y: string)
    requires '.' !in x
    ensures Fields(x + "." + y) == [x] + Fields(y)
    decreases |x|
  {
    var s := x + "." + y;
    if x == [] {
      assert s[1..] == y;
    } else {
      assert s[1..] == x[1..] + "." + y;
      FieldsOfJoin(x[1..], y);
      assert x == [x[0]] + x[1..];
    }
  }

  lemma {:induction false} FieldsOfDotted(parts: seq<string>)
    requires |parts| >= 1
    requires forall i :: 0 <= i < |parts| ==> '.' !in parts[i]
    ensures Fields(Dotted(parts)) == parts
    decreases |parts|
  {
    if |parts| == 1 {
      FieldsOfPlain(parts[0]);
    } else {
      FieldsOfJoin(parts[0], Dotted(parts[1..]));
      FieldsOfDotted(parts[1..]);
    }
  }

  /** net.IP.String for a 4-byte address: dotted decimal, no leading zeros. */
  function IPv4Text(ip: seq<byte>): string
    requires |ip| == 4
  {
    Dotted([Decimal(ip[0] as int), Decimal(ip[1] as int), Decimal(ip[2] as int), Decimal(ip[3] as int)])
  }

  /** Each field of the dotted form is the decimal text of one octet. */
  lemma IPv4TextFields(ip: seq<byte>)
    requires |ip| == 4
    ensures |Fields(IPv4Text(ip))| == 4
    ensures forall i :: 0 <= i < 4 ==>
      AllDigits(Fields(IPv4Text(ip))[i]) && DecimalValue(Fields(IPv4Text(ip))[i]) == ip[i] as int
  {
    var parts := [Decimal(ip[0] as int), Decimal(ip[1] as int), Decimal(ip[2] as int), Decimal(ip[3] as int)];
    forall i | 0 <= i < 4 ensures '.' !in parts[i] && DecimalValue(parts[i]) == ip[i] as int {
      DecimalHasNoSeparator(ip[i] as int);
      DecimalRoundTrip(ip[i] as int);
    }
    FieldsOfDotted(parts);
  }

  /** Rendering an IPv4 address loses nothing: distinct addresses get distinct text. */
  lemma IPv4TextInjective(a: seq<byte>, b: seq<byte>)
    requires |a| == 4 && |b| == 4
    ensures IPv4Text(a) == IPv4Text(b) ==> a == b
  {
    IPv4TextFields(a);
    IPv4TextFields(b);
  }

  /** The IPv4 text holds no ':', so JoinHostPort never brackets it. */
  lemma IPv4TextHasNoColon(ip: seq<byte>)
    requires |ip| == 4
    ensures ':' !in IPv4Text(ip)
  {
    var parts := [Decimal(ip[0] as int), Decimal(ip[1] as int), Decimal(ip[2] as int), Decimal(ip[3] as int)];
    forall i | 0 <= i < 4 ensures ':' !in parts[i] {
      DecimalHasNoSeparator(ip[i] as int);
    }
    DottedAvoids(parts, ':');
  }

  /**
   * net.IP(ip).String() for the two lengths the decoder produces. The textual
   * form of a 16-byte address (RFC 5952 compression, IPv4-mapped forms) is
   * left abstract: it is whatever the caller-supplied ipv6Text says.
   */
  function IPString(ip: seq<byte>, ipv6Text: seq<byte> -> string): string
    requires |ip| == 4 || |ip| == 16
  {
    if |ip| == 4 then IPv4Text(ip) else ipv6Text(ip)
  }

  /** Go's string(b): every byte becomes the character with the same code. */
  function BytesToString(b: seq<byte>): (s: string)
    ensures |s| == |b|
    ensures forall i :: 0 <= i < |b| ==> s[i] as int == b[i] as int
  {
    seq(|b|, i requires 0 <= i < |b| => (b[i] as int) as char)
  }

  /** The bytes of a string whose characters all have codes below 256 (the reader of BytesToString). */
  function StringBytes(s: string): (b: seq<byte>)
    requires forall i :: 0 <= i < |s| ==> s[i] as int < 256
  {
    seq(|s|, i requires 0 <= i < |s| && s[i] as int < 256 => s[i] as int as byte)
  }

  /** A domain's bytes come back unchanged from their string, so distinct names get distinct strings. */
  lemma BytesStringRoundTrip(b: seq<byte>)
    ensures forall i :: 0 <= i < |BytesToString(b)| ==> BytesToString(b)[i] as int < 256
    ensures StringBytes(BytesToString(b)) == b
  {
    var s := BytesToString(b);
    forall i | 0 <= i < |s| ensures s[i] as int < 256 {
      assert s[i] as int == b[i] as int;
    }
    assert StringBytes(s) == b;
  }

  /** net.JoinHostPort: a host holding ':' is taken for an IPv6 literal and bracketed. */
  function JoinHostPort(host: string, port: string): string
  {
    if ':' in host then "[" + host + "]:" + port else host + ":" + port
  }

  /** Index of the last c in s, or -1 when s has none. */
  function LastIndexOf(s: string, c: char): (r: int)
    ensures -1 <= r < |s|
    ensures r == -1 <==> c !in s
    ensures r >= 0 ==> s[r] == c && forall j :: r < j < |s| ==> s[j] != c
    decreases |s|
  {
    if s == [] then -1
    else if s[|s| - 1] == c then |s| - 1
    else LastIndexOf(s[..|s| - 1], c)
  }

  datatype HostPort = HostPort(host: string, port: string)

  /** Drop the brackets JoinHostPort puts around a host holding ':'. */
  function Unbracket(h: string): string
  {
    if |h| >= 2 && h[0] == '[' && h[|h| - 1] == ']' && ':' in h[1..|h| - 1] then h[1..|h| - 1] else h
  }

  /**
   * The reader of JoinHostPort: split at the last ':' and drop the brackets
   * around the host.
   */
  function SplitAddr(a: string): Option<HostPort>
  {
    var i := LastIndexOf(a, ':');
    if i < 0 then None else Some(HostPort(Unbracket(a[..i]), a[i + 1..]))
  }

  /** The last ':' of h + ":" + p is the joining one when p holds none. */
  lemma {:induction false} LastColonIsJoin(h: string, p: string)
    requires ':' !in p
    ensures LastIndexOf(h + ":" + p, ':') == |h|
    decreases |p|
  {
    var a := h + ":" + p;
    if p != [] {
      assert a[|a| - 1] == p[|p| - 1];
      assert a[..|a| - 1] == h + ":" + p[..|p| - 1];
      LastColonIsJoin(h, p[..|p| - 1]);
    }
  }

  /** Unbracket undoes exactly the bracketing JoinHostPort applies. */
  lemma UnbracketJoin(host: string)
    ensures Unbracket(if ':' in host then "[" + host + "]" else host) == host
  {
    if ':' in host {
      var h := "[" + host + "]";
      assert h[1..|h| - 1] == host;
    } else if |host| >= 2 {
      var inner := host[1..|host| - 1];
      forall k | 0 <= k < |inner| ensures inner[k] != ':' {
        assert inner[k] == host[k + 1];
      }
    }
  }

  lemma SplitJoin(host: string, port: string)
    requires ':' !in port
    ensures SplitAddr(JoinHostPort(host, port)) == Some(HostPort(host, port))
  {
    var h := if ':' in host then "[" + host + "]" else host;
    var a := h + ":" + port;
    assert JoinHostPort(host, port) == a;
    LastColonIsJoin(h, port);
    assert a[..|h|] == h;
    assert a[|h| + 1..] == port;
    UnbracketJoin(host);
  }
}
