/** Normalising an unresolved host and a port into the "host:port" text used
    in configuration: the host is trimmed and lower-cased, an IPv6 literal is
    replaced by its compressed form between brackets, an IPv4 literal is kept,
    and any other name is refused when it ends with a dot or holds a colon. */
module HostNormalizer {
  import opened Wrappers
  import opened Text
  import Bytes
  import Ipv4
  import Ipv6

  /** Ports a socket can be bound to. */
  predicate ValidPort(port: int) { 0 <= port <= 0xffff }

  /** The host after trimming and lower-casing, before it is classified. */
  function Cleaned(host: string): string
  {
    Lower(Trim(host))
  }

  /** A host name (not an address literal) that may not be used. */
  predicate IllegalName(h: string)
  {
    (|h| > 0 && h[|h| - 1] == '.') || ':' in h
  }

  /** The normalised host alone. */
  function NormalizeHost(host: string): (r: Result<string>)
    ensures r.Err? ==> r.error == InvalidArgument
  {
    var h := Cleaned(host);
    match Ipv6.TextToIpv6(h)
    case Some(b) => Ok("[" + Ipv6.Ipv6Text(b) + "]")
    case None =>
      if Ipv4.TextToIpv4(h).Some? then Ok(h)
      else if IllegalName(h) then Err(InvalidArgument)
      else Ok(h)
  }

  /** The normalised "host:port" text; the port is checked first. */
  function NormalizeHostAndPort(host: string, port: int): (r: Result<string>)
    ensures r.Err? ==> r.error == InvalidArgument
    ensures !ValidPort(port) ==> r.Err?
    ensures ValidPort(port) ==> r.Ok? == NormalizeHost(host).Ok?
  {
    if !ValidPort(port) then Err(InvalidArgument)
    else
      match NormalizeHost(host)
      case Err(e) => Err(e)
      case Ok(h) => Ok(h + ":" + IntToString(port))
  }

  // ---------------------------------------------------------------- properties

  /** Lower-casing keeps the ends of trimmed text free of blanks. */
  lemma CleanedIsTrimmed(host: string)
    ensures var h := Cleaned(host); h == [] || (!IsTrimmed(h[0]) && !IsTrimmed(h[|h| - 1]))
    ensures HasNoUpper(Cleaned(host))
  {
  }

  /** A host is refused exactly when it is neither an IPv6 literal nor a
      legal name: the IPv4 test in between never rescues an illegal name,
      since an IPv4 literal holds no colon and does not end with a dot. */
  lemma RefusedHosts(host: string)
    ensures NormalizeHost(host).Err? <==>
      Ipv6.TextToIpv6(Cleaned(host)).None? && IllegalName(Cleaned(host))
  {
    var h := Cleaned(host);
    if Ipv4.TextToIpv4(h).Some? {
      Ipv4.Ipv4LiteralShape(h);
      assert ':' !in h by {
        forall i | 0 <= i < |h| ensures h[i] != ':' {
          assert IsDigit(h[i]) || h[i] == '.';
        }
      }
    }
  }

  /** An IPv4 literal is never read as an IPv6 literal, so it is kept as is. */
  lemma Ipv4HostKept(host: string)
    requires Ipv4.TextToIpv4(Cleaned(host)).Some?
    ensures NormalizeHost(host) == Ok(Cleaned(host))
  {
    var h := Cleaned(host);
    Ipv4.Ipv4LiteralShape(h);
    assert ':' !in h by {
      forall i | 0 <= i < |h| ensures h[i] != ':' {
        assert IsDigit(h[i]) || h[i] == '.';
      }
    }
    Ipv6.Ipv6NeedsColon(h);
  }

  /** A legal name that is not an IPv6 literal comes back as cleaned:
      trimmed and lower-cased, and otherwise unchanged. */
  lemma NameKept(host: string)
    requires Ipv6.TextToIpv6(Cleaned(host)).None? && !IllegalName(Cleaned(host))
    ensures NormalizeHost(host) == Ok(Cleaned(host))
  {
  }

  /** An IPv6 host is accepted and comes back in brackets, and the text
      between the brackets reads back as the same address. */
  lemma Ipv6HostReadsBack(host: string)
    requires Ipv6.TextToIpv6(Cleaned(host)).Some?
    ensures NormalizeHost(host).Ok?
    ensures var v := NormalizeHost(host).value;
      && |v| >= 2 && v[0] == '[' && v[|v| - 1] == ']'
      && Ipv6.TextToIpv6(v[1..|v| - 1]) == Ipv6.TextToIpv6(Cleaned(host))
  {
    var b := Ipv6.TextToIpv6(Cleaned(host)).value;
    Ipv6.Ipv6RoundTrip(b);
    var v := "[" + Ipv6.Ipv6Text(b) + "]";
    assert v[1..|v| - 1] == Ipv6.Ipv6Text(b);
  }

  /** An accepted host with a valid port: the normalised host, a colon and
      the port in decimal. */
  lemma PairText(host: string, port: int)
    requires ValidPort(port) && NormalizeHost(host).Ok?
    ensures NormalizeHostAndPort(host, port) == Ok(NormalizeHost(host).value + ":" + IntToString(port))
  {
  }

  /** The written form of an IPv6 address is already trimmed and lower-case. */
  lemma Ipv6TextCleaned(b: seq<Bytes.Byte>)
    requires |b| == 16
    ensures Cleaned(Ipv6.Ipv6Text(b)) == Ipv6.Ipv6Text(b)
  {
    var t := Ipv6.Ipv6Text(b);
    Ipv6.CompressedTextChars(Ipv6.Hextets(b));
    TrimKeepsTrimmed(t);
    LowerKeeps(t);
  }

  /** Normalising is idempotent: a normalised name normalises to itself, and
      a normalised IPv6 literal, taken out of its brackets, normalises to the
      same bracketed text. */
  lemma NormalizeHostIdempotent(host: string)
    requires NormalizeHost(host).Ok?
    ensures var v := NormalizeHost(host).value;
      Ipv6.TextToIpv6(Cleaned(host)).None? ==> NormalizeHost(v) == Ok(v)
    ensures var v := NormalizeHost(host).value;
      Ipv6.TextToIpv6(Cleaned(host)).Some? ==>
        |v| >= 2 && v[0] == '[' && v[|v| - 1] == ']' && NormalizeHost(v[1..|v| - 1]) == Ok(v)
  {
    var h := Cleaned(host);
    var v := NormalizeHost(host).value;
    match Ipv6.TextToIpv6(h)
    case Some(b) =>
      var t := Ipv6.Ipv6Text(b);
      assert v[1..|v| - 1] == t;
      Ipv6TextCleaned(b);
      Ipv6.Ipv6RoundTrip(b);
    case None =>
      CleanedIsTrimmed(host);
      TrimKeepsTrimmed(h);
      LowerKeeps(h);
      assert Cleaned(v) == h;
  }

  /** A normalised host holds no upper-case letter and no surrounding blanks. */
  lemma NormalizedHostShape(host: string)
    requires NormalizeHost(host).Ok?
    ensures var v := NormalizeHost(host).value;
      HasNoUpper(v) && (v == [] || (!IsTrimmed(v[0]) && !IsTrimmed(v[|v| - 1])))
  {
    match Ipv6.TextToIpv6(Cleaned(host))
    case Some(b) => BracketedShape(b);
    case None => CleanedIsTrimmed(host);
  }

  /** The bracketed written form of an IPv6 address holds no upper-case letter
      and starts and ends with a bracket. */
  lemma BracketedShape(b: seq<Bytes.Byte>)
    requires |b| == 16
    ensures var v := "[" + Ipv6.Ipv6Text(b) + "]";
      HasNoUpper(v) && v[0] == '[' && v[|v| - 1] == ']'
  {
    var t := Ipv6.Ipv6Text(b);
    var v := "[" + t + "]";
    Ipv6.CompressedTextChars(Ipv6.Hextets(b));
    forall k | 0 <= k < |v|
      ensures !('A' <= v[k] <= 'Z')
    {
      if 0 < k < |v| - 1 {
        assert v[k] == t[k - 1];
      }
    }
  }

  // ---------------------------------------------------------------- documented examples
  // The *Example lemmas state the assertions; the *Clean, *Legal, *NotLiteral,
  // *Trim and *Facts lemmas are steps that each evaluate one literal.

  // Scaffolding: the two port numerals of the examples, evaluated once.
  lemma PortTexts()
    ensures IntToString(42) == "42" && IntToString(99) == "99"
  {
  }

  /** Text with no blanks at its ends and no upper-case letter is already clean. */
  lemma CleanHost(s: string)
    requires s != [] && !IsTrimmed(s[0]) && !IsTrimmed(s[|s| - 1]) && HasNoUpper(s)
    ensures Cleaned(s) == s
  {
    TrimKeepsTrimmed(s);
    LowerKeeps(s);
  }

  /** A clean text holding a character that is neither a digit, a dot, a
      colon nor a hexadecimal digit is no address literal. */
  lemma NotLiteral(s: string, i: nat)
    requires i < |s| && !IsDigit(s[i]) && s[i] != '.' && s[i] != ':' && HexDigitValue(s[i]).None?
    ensures Ipv6.TextToIpv6(s).None? && Ipv4.TextToIpv4(s).None?
  {
    Ipv6.NotIpv6Literal(s, i);
    Ipv4.NotIpv4Literal(s, i);
  }

  /** "1.2.3.4" with port 42 gives "1.2.3.4:42". */
  lemma Ipv4HostExample(s: string)
    requires s == "1.2.3.4"
    ensures NormalizeHostAndPort(s, 42) == Ok(s + ":" + "42")
  {
    assert Ipv4.TextToIpv4(s) == Some([1, 2, 3, 4]) by {
      assert Ipv4.DottedQuad([1, 2, 3, 4]) == s;
      Ipv4.Ipv4RoundTrip([1, 2, 3, 4]);
    }
    CleanHost(s);
    Ipv4HostKept(s);
    PortTexts();
  }

  lemma Ipv6HostFacts(s: string, h: seq<Ipv6.Hextet>, w: string)
    requires s == "2001:0db8:85a3:0000:0000:8a2e:0370:7334" && w == "2001:db8:85a3::8a2e:370:7334"
    requires |h| == 8 && h[0] == 0x2001 && h[1] == 0xdb8 && h[2] == 0x85a3 && h[3] == 0 && h[4] == 0
      && h[5] == 0x8a2e && h[6] == 0x370 && h[7] == 0x7334
    ensures Cleaned(s) == s
    ensures Ipv6.TextToIpv6(s) == Some(Ipv6.Octets(h)) && Ipv6.Ipv6Text(Ipv6.Octets(h)) == w
  {
    assert Cleaned(s) == s by { CleanHost(s); }
    assert Ipv6.TextToIpv6(s) == Some(Ipv6.Octets(h)) by { Ipv6.ReadExampleC(s, h); }
    assert Ipv6.Ipv6Text(Ipv6.Octets(h)) == w by {
      Ipv6.WriteExampleC(h);
      Ipv6.HextetsOfOctets(h);
    }
  }

  /** "2001:0db8:85a3:0000:0000:8a2e:0370:7334" with port 42 gives
      "[2001:db8:85a3::8a2e:370:7334]:42". */
  lemma Ipv6HostExample(s: string, h: seq<Ipv6.Hextet>, w: string)
    requires s == "2001:0db8:85a3:0000:0000:8a2e:0370:7334" && w == "2001:db8:85a3::8a2e:370:7334"
    requires |h| == 8 && h[0] == 0x2001 && h[1] == 0xdb8 && h[2] == 0x85a3 && h[3] == 0 && h[4] == 0
      && h[5] == 0x8a2e && h[6] == 0x370 && h[7] == 0x7334
    ensures NormalizeHostAndPort(s, 42) == Ok("[" + w + "]" + ":" + "42")
  {
    Ipv6HostFacts(s, h, w);
    PortTexts();
  }

  lemma HostNameClean(s: string)
    requires s == "somerandomhostname"
    ensures Trim(s) == s && Lower(s) == s
  {
    TrimKeepsTrimmed(s);
    LowerKeeps(s);
  }

  lemma HostNameLegal(s: string)
    requires s == "somerandomhostname"
    ensures !IllegalName(s)
  {
  }

  lemma HostNameNotLiteral(s: string)
    requires s == "somerandomhostname"
    ensures Ipv6.TextToIpv6(s).None? && Ipv4.TextToIpv4(s).None?
  {
    NotLiteral(s, 0);
  }

  /** "somerandomhostname" with port 99 gives "somerandomhostname:99". */
  lemma HostNameExample(s: string)
    requires s == "somerandomhostname"
    ensures NormalizeHostAndPort(s, 99) == Ok(s + ":" + "99")
  {
    HostNameClean(s);
    HostNameLegal(s);
    HostNameNotLiteral(s);
    PortTexts();
  }

  lemma PaddedHostNameTrim(s: string, x: string)
    requires s == "  somerandomhostname  " && x == "somerandomhostname"
    ensures Trim(s) == x
  {
    assert s == "  " + x + "  ";
    TrimPadded("  ", x, "  ");
  }

  /** "  somerandomhostname  " with port 99 gives the trimmed name and the port. */
  lemma PaddedHostNameExample(s: string, x: string)
    requires s == "  somerandomhostname  " && x == "somerandomhostname"
    ensures Trim(s) == x
    ensures NormalizeHostAndPort(s, 99) == Ok(x + ":" + "99")
  {
    PaddedHostNameTrim(s, x);
    HostNameClean(x);
    HostNameLegal(x);
    HostNameNotLiteral(x);
    PortTexts();
  }

  lemma IllegalDotFacts(s: string)
    requires s == "illegalhost."
    ensures Trim(s) == s && Lower(s) == s && IllegalName(s)
    ensures Ipv6.TextToIpv6(s).None? && Ipv4.TextToIpv4(s).None?
  {
    TrimKeepsTrimmed(s);
    LowerKeeps(s);
    NotLiteral(s, 0);
  }

  lemma IllegalColonFacts(t: string)
    requires t == "illegalhost:fasf"
    ensures Trim(t) == t && Lower(t) == t && IllegalName(t)
    ensures Ipv6.TextToIpv6(t).None? && Ipv4.TextToIpv4(t).None?
  {
    TrimKeepsTrimmed(t);
    LowerKeeps(t);
    NotLiteral(t, 0);
    assert t[11] == ':';
  }

  /** "illegalhost." and "illegalhost:fasf" are refused, and so is the port -1. */
  lemma IllegalExamples(s: string, t: string)
    requires s == "illegalhost." && t == "illegalhost:fasf"
    ensures NormalizeHostAndPort(s, 42) == Err(InvalidArgument)
    ensures NormalizeHostAndPort(t, 42) == Err(InvalidArgument)
    ensures NormalizeHostAndPort("1.2.3.4", -1) == Err(InvalidArgument)
  {
    IllegalDotFacts(s);
    IllegalColonFacts(t);
  }

  lemma CamelCaseClean(s: string)
    requires s == "CamelCaseHostName"
    ensures Trim(s) == s && Trim(Lower(s)) == Lower(s) && Lower(Lower(s)) == Lower(s)
  {
    TrimKeepsTrimmed(s);
    CleanedIsTrimmed(s);
    TrimKeepsTrimmed(Lower(s));
    LowerKeeps(Lower(s));
  }

  lemma CamelCaseLegal(s: string)
    requires s == "CamelCaseHostName"
    ensures !IllegalName(Lower(s))
  {
    var h := Lower(s);
    assert ':' !in s;
    assert forall i :: 0 <= i < |h| ==> h[i] == LowerChar(s[i]);
  }

  lemma CamelCaseNotLiteral(s: string)
    requires s == "CamelCaseHostName"
    ensures Ipv6.TextToIpv6(Lower(s)).None? && Ipv4.TextToIpv4(Lower(s)).None?
  {
    assert Lower(s)[2] == 'm';
    NotLiteral(Lower(s), 2);
  }

  /** "CamelCaseHostName" with port 99 gives the lower-cased name and the port. */
  lemma CamelCaseExample(s: string)
    requires s == "CamelCaseHostName"
    ensures NormalizeHostAndPort(s, 99) == Ok(Lower(s) + ":" + "99")
  {
    CamelCaseClean(s);
    CamelCaseLegal(s);
    CamelCaseNotLiteral(s);
    PortTexts();
  }
}
