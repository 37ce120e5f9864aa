/** Writing IP addresses, and addresses with ports, in the form they take in
    a URL: an IPv4 address in its dotted-quad form, an IPv6 address in the
    compressed form of RFC 5952 between square brackets (section 6 of RFC
    5952), and the port after a colon. */
module AddressFormat {
  import opened Wrappers
  import opened Text
  import opened Bytes
  import Ipv4
  import Ipv6

  datatype IpAddress = V4(bytes: seq<Byte>) | V6(bytes: seq<Byte>)

  predicate ValidAddress(a: IpAddress)
  {
    if a.V4? then |a.bytes| == 4 else |a.bytes| == 16
  }

  /** An address of either family, with the number of bytes of its family. */
  type Address = a: IpAddress | ValidAddress(a) witness V4([0, 0, 0, 0])

  /** The ports a socket address can carry. */
  type PortNumber = p: int | 0 <= p < 0x1_0000

  /** A socket address: resolved to an IP address, or only a host name. */
  datatype SocketAddress =
    | Resolved(address: Address, port: PortNumber)
    | Unresolved(hostName: string, port: PortNumber)

  // ---------------------------------------------------------------- reading

  /** The address InetAddress.getByName gives for an address literal: an IPv4
      literal, else an IPv6 literal, which may also come between brackets;
      an IPv4 literal between brackets is refused. None also stands for a
      name that would need a lookup. */
  function AddressOfLiteral(s: string): (r: Option<Address>)
    ensures r.Some? && r.value.V4? ==> Ipv4.TextToIpv4(s) == Some(r.value.bytes)
  {
    if |s| > 0 && s[0] == '[' then
      if |s| > 2 && s[|s| - 1] == ']' && Ipv4.TextToIpv4(s[1..|s| - 1]).None? then
        match Ipv6.TextToIpv6(s[1..|s| - 1])
        case Some(b) => Some(V6(b))
        case None => None
      else None
    else
      match Ipv4.TextToIpv4(s)
      case Some(b) => Some(V4(b))
      case None =>
        match Ipv6.TextToIpv6(s)
        case Some(b) => Some(V6(b))
        case None => None
  }

  /** Position of the last c in s[..k], or -1. */
  function LastIndexBefore(s: string, c: char, k: nat): (j: int)
    requires k <= |s|
    ensures -1 <= j < k
    ensures j >= 0 ==> s[j] == c
    ensures forall i :: j < i < k ==> s[i] != c
  {
    if k == 0 then -1 else if s[k - 1] == c then k - 1 else LastIndexBefore(s, c, k - 1)
  }

  /** The address and port of a URL authority: the text after the last colon
      is the port and the text before it the address. */
  function ReadUrl(url: string): (r: Option<(Address, int)>)
  {
    var k := LastIndexBefore(url, ':', |url|);
    if k < 0 then None
    else
      match (AddressOfLiteral(url[..k]), ParseInt(url[k + 1..]))
      case (Some(a), Some(p)) => Some((a, p))
      case _ => None
  }

  // ---------------------------------------------------------------- writing

  /** ipAddressToUrlString: the dotted quad of an IPv4 address, the
      bracketed compressed form of an IPv6 address. */
  function IpAddressToUrlString(a: Address): (url: string)
    ensures |url| > 0
    ensures url[0] == '[' <==> a.V6?
  {
    match a
    case V4(b) =>
      DecimalDenotes(b[0]);
      Ipv4.DottedQuad(b)
    case V6(b) => "[" + Ipv6.Ipv6Text(b) + "]"
  }

  /** ipAddressAndPortToUrlString: the address as above, a colon and the port
      in decimal. */
  function IpAddressAndPortToUrlString(a: Address, port: int): (url: string)
  {
    IpAddressToUrlString(a) + ":" + IntToString(port)
  }

  /** socketAddressToUrlString: the URL form of a resolved socket address;
      an unresolved one is refused with an illegal-argument error. */
  function SocketAddressToUrlString(sa: SocketAddress): (r: Result<string>)
    ensures r.Err? <==> sa.Unresolved?
    ensures r.Err? ==> r.error == InvalidArgument
  {
    match sa
    case Unresolved(_, _) => Err(InvalidArgument)
    case Resolved(a, p) => Ok(IpAddressAndPortToUrlString(a, p))
  }

  // ---------------------------------------------------------------- properties

  /** The written form of an IPv6 address holds a colon, so it is never an
      IPv4 literal. */
  lemma Ipv6TextHasColon(b: seq<Byte>)
    requires |b| == 16
    ensures Ipv4.TextToIpv4(Ipv6.Ipv6Text(b)) == None
  {
    var h := Ipv6.Hextets(b);
    var t := Ipv6.CompressedText(h);
    var r := Ipv6.LongestZeroRun(h);
    if r.1 >= 2 {
      var l := Ipv6.Groups(h, 0, r.0);
      assert t[|l|] == ':';
      Ipv4.NotIpv4Literal(t, |l|);
    } else {
      var x := Hex(h[0]);
      assert t == x + ":" + Ipv6.Groups(h, 1, 8);
      assert t[|x|] == ':';
      Ipv4.NotIpv4Literal(t, |x|);
    }
  }

  /** Reading the URL form of an address as a literal gives the address back. */
  lemma UrlHostRoundTrip(a: Address)
    ensures AddressOfLiteral(IpAddressToUrlString(a)) == Some(a)
  {
    match a
    case V4(b) =>
      Ipv4.Ipv4RoundTrip(b);
    case V6(b) =>
      var t := Ipv6.Ipv6Text(b);
      var url := "[" + t + "]";
      Ipv6.CompressedTextChars(Ipv6.Hextets(b));
      assert url[1..|url| - 1] == t;
      Ipv6TextHasColon(b);
      Ipv6.Ipv6RoundTrip(b);
  }

  /** A URL with a port reads back as the address and the port. */
  lemma UrlRoundTrip(a: Address, port: int)
    requires IntMin <= port <= IntMax
    ensures ReadUrl(IpAddressAndPortToUrlString(a, port)) == Some((a, port))
  {
    var host := IpAddressToUrlString(a);
    var p := IntToString(port);
    SplitAtLastColon(host, p);
    UrlHostRoundTrip(a);
    ParseIntToString(port);
  }

  /** A text, a colon and a text without colons split at that colon. */
  lemma SplitAtLastColon(host: string, p: string)
    requires forall i :: 0 <= i < |p| ==> p[i] != ':'
    ensures var url := host + ":" + p;
      && LastIndexBefore(url, ':', |url|) == |host|
      && url[..|host|] == host && url[|host| + 1..] == p
  {
    var url := host + ":" + p;
    assert url[|host|] == ':';
    assert forall i :: |host| < i < |url| ==> url[i] == p[i - |host| - 1];
    assert url[..|host|] == host && url[|host| + 1..] == p;
  }

  /** The URL of a resolved socket address reads back as its address and port. */
  lemma SocketUrlRoundTrip(sa: SocketAddress)
    requires sa.Resolved?
    ensures SocketAddressToUrlString(sa).Ok?
    ensures ReadUrl(SocketAddressToUrlString(sa).value) == Some((sa.address, sa.port))
  {
    UrlRoundTrip(sa.address, sa.port);
  }

  /** An IPv6 URL is an address literal in square brackets: what lies between
      the brackets reads back as the address, and holds only lower-case
      hexadecimal digits and colons. */
  lemma Ipv6UrlForm(b: seq<Byte>)
    requires |b| == 16
    ensures var url := IpAddressToUrlString(V6(b));
      && |url| >= 2 && url[0] == '[' && url[|url| - 1] == ']'
      && Ipv6.TextToIpv6(url[1..|url| - 1]) == Some(b)
      && forall k :: 1 <= k < |url| - 1 ==> IsLowerHex(url[k]) || url[k] == ':'
  {
    var t := Ipv6.Ipv6Text(b);
    Ipv6.CompressedTextChars(Ipv6.Hextets(b));
    Ipv6.Ipv6RoundTrip(b);
    var url := "[" + t + "]";
    assert url[1..|url| - 1] == t;
    assert forall k :: 1 <= k < |url| - 1 ==> url[k] == t[k - 1];
  }

  /** An IPv6 address without two adjacent zero groups keeps all eight groups
      and is only bracketed. */
  lemma Ipv6UrlWithoutZeroPair(b: seq<Byte>)
    requires |b| == 16
    requires forall i :: 0 <= i < 7 ==> Ipv6.Hextets(b)[i] != 0 || Ipv6.Hextets(b)[i + 1] != 0
    ensures IpAddressToUrlString(V6(b)) == "[" + Ipv6.Groups(Ipv6.Hextets(b), 0, 8) + "]"
  {
    Ipv6.NoZeroPairKeepsAllGroups(Ipv6.Hextets(b));
  }

  // ---------------------------------------------------------------- documented examples
  // The *Example lemmas state the assertions; the *ExampleText lemmas are
  // steps that each evaluate one literal.

  /** A literal in dotted-quad form denotes the address it writes. */
  lemma DottedQuadLiteral(s: string, b: seq<Byte>)
    requires |b| == 4 && Ipv4.DottedQuad(b) == s
    ensures AddressOfLiteral(s) == Some(V4(b))
    ensures IpAddressToUrlString(V4(b)) == s
  {
    Ipv4.Ipv4RoundTrip(b);
    DecimalDenotes(b[0]);
  }

  lemma Ipv4ExampleText()
    ensures Ipv4.DottedQuad([192, 168, 0, 1]) == "192.168.0.1"
  {
  }

  /** "192.168.0.1" is written as it was given. */
  lemma Ipv4Example(s: string, b: seq<Byte>)
    requires s == "192.168.0.1" && b == [192, 168, 0, 1]
    ensures AddressOfLiteral(s) == Some(V4(b))
    ensures IpAddressToUrlString(V4(b)) == s
  {
    Ipv4ExampleText();
    DottedQuadLiteral(s, b);
  }

  lemma Ipv4PortExampleText()
    ensures Ipv4.DottedQuad([10, 244, 243, 12]) == "10.244.243.12"
  {
  }

  lemma PortExampleText()
    ensures IntToString(23453) == "23453"
  {
  }

  /** "10.244.243.12" is written as it was given, with the port 23453 after a colon. */
  lemma Ipv4PortExample(s: string, b: seq<Byte>)
    requires s == "10.244.243.12" && b == [10, 244, 243, 12]
    ensures AddressOfLiteral(s) == Some(V4(b))
    ensures IpAddressToUrlString(V4(b)) == s
    ensures IpAddressAndPortToUrlString(V4(b), 23453) == s + ":" + "23453"
    ensures SocketAddressToUrlString(Resolved(V4(b), 23453)) == Ok(s + ":" + "23453")
  {
    Ipv4PortExampleText();
    PortExampleText();
    DottedQuadLiteral(s, b);
  }

  /** Any IPv6 literal holds a colon, so it is neither an IPv4 literal nor
      bracketed, and denotes the IPv6 address it reads as. */
  lemma Ipv6LiteralReads(s: string, b: seq<Byte>)
    requires Ipv6.TextToIpv6(s) == Some(b)
    ensures AddressOfLiteral(s) == Some(V6(b))
  {
    if ':' !in s {
      Ipv6.Ipv6NeedsColon(s);
    }
    var i :| 0 <= i < |s| && s[i] == ':';
    Ipv4.NotIpv4Literal(s, i);
    if s[0] == '[' {
      Ipv6.NotIpv6Literal(s, 0);
    }
  }

  /** "2001:01db8:00:0:00:ff00:42:8329" denotes the address with groups
      2001, 1db8, 0, 0, 0, ff00, 42 and 8329. */
  lemma Ipv6LiteralExample(s: string, h: seq<Ipv6.Hextet>)
    requires s == "2001:01db8:00:0:00:ff00:42:8329"
    requires |h| == 8 && h[0] == 0x2001 && h[1] == 0x1db8 && h[2] == 0 && h[3] == 0 && h[4] == 0
      && h[5] == 0xff00 && h[6] == 0x42 && h[7] == 0x8329
    ensures AddressOfLiteral(s) == Some(V6(Ipv6.Octets(h)))
  {
    assert Ipv6.TextToIpv6(s) == Some(Ipv6.Octets(h)) by { Ipv6.ReadExampleA(s, h); }
    Ipv6LiteralReads(s, Ipv6.Octets(h));
  }

  /** That address is written "[2001:1db8::ff00:42:8329]". */
  lemma Ipv6UrlExample(h: seq<Ipv6.Hextet>, w: string)
    requires |h| == 8 && h[0] == 0x2001 && h[1] == 0x1db8 && h[2] == 0 && h[3] == 0 && h[4] == 0
      && h[5] == 0xff00 && h[6] == 0x42 && h[7] == 0x8329
    requires w == "2001:1db8::ff00:42:8329"
    ensures IpAddressToUrlString(V6(Ipv6.Octets(h))) == "[" + w + "]"
  {
    Ipv6.WriteExampleA(h);
    Ipv6.HextetsOfOctets(h);
  }

  /** "2001:db8:10:11:12:ff00:42:8329" denotes the address with those eight groups. */
  lemma Ipv6PortLiteralExample(s: string, h: seq<Ipv6.Hextet>)
    requires s == "2001:db8:10:11:12:ff00:42:8329"
    requires |h| == 8 && h[0] == 0x2001 && h[1] == 0xdb8 && h[2] == 0x10 && h[3] == 0x11 && h[4] == 0x12
      && h[5] == 0xff00 && h[6] == 0x42 && h[7] == 0x8329
    ensures AddressOfLiteral(s) == Some(V6(Ipv6.Octets(h)))
  {
    assert Ipv6.TextToIpv6(s) == Some(Ipv6.Octets(h)) by { Ipv6.ExampleB(s, h); }
    Ipv6LiteralReads(s, Ipv6.Octets(h));
  }

  /** That address is only bracketed, and the port 23453 follows after a colon. */
  lemma Ipv6PortUrlExample(h: seq<Ipv6.Hextet>, w: string)
    requires |h| == 8 && h[0] == 0x2001 && h[1] == 0xdb8 && h[2] == 0x10 && h[3] == 0x11 && h[4] == 0x12
      && h[5] == 0xff00 && h[6] == 0x42 && h[7] == 0x8329
    requires w == "2001:db8:10:11:12:ff00:42:8329"
    ensures IpAddressToUrlString(V6(Ipv6.Octets(h))) == "[" + w + "]"
    ensures IpAddressAndPortToUrlString(V6(Ipv6.Octets(h)), 23453) == "[" + w + "]" + ":" + "23453"
    ensures SocketAddressToUrlString(Resolved(V6(Ipv6.Octets(h)), 23453)) == Ok("[" + w + "]" + ":" + "23453")
  {
    assert Ipv6.Ipv6Text(Ipv6.Octets(h)) == w by {
      Ipv6.TextExampleB(h);
      Ipv6.HextetsOfOctets(h);
    }
    PortExampleText();
  }
}
