# Flink NetUtils in Dafny

A model of the network helpers in Apache Flink's `org.apache.flink.util.NetUtils`
as pinned down by its test class `NetUtilsTest`. The model has four parts, each
with its proofs.

- **Port ranges** (`PortRange`). `getPortRangeFromString` reads a
  comma-separated list of single ports and inclusive `lo-hi` ranges and hands
  out the ports token by token.
  - Blanks around a token and around its bounds are ignored.
  - Every bound is read as a Java `int`.
  - Any malformed token (a name, a missing bound, an empty element) makes the
    whole specification fail with a number-format error.
  - The parser is shown to accept exactly the ports named by its tokens, and
    to read back any specification written from tokens.
- **Server creation** (`ServerBinding`). `createServerFromPorts` calls a
  caller-supplied server factory at each candidate port in turn.
  - It returns the first server the factory builds.
  - When every port fails, it reports a bind error.
  - The loop is a method proved against a reference function.
- **URL formatting of addresses** (`Ipv4`, `Ipv6`, `AddressFormat`).
  - `ipAddressToUrlString` writes an IPv4 address as a dotted quad.
  - It writes an IPv6 address in the compressed form of RFC 5952 inside
    square brackets: lower-case hex without leading zeros, and the leftmost
    longest run of two or more zero groups replaced by `::`.
  - `ipAddressAndPortToUrlString` and `socketAddressToUrlString` append
    `:port`.
  - Address literals are read the way `InetAddress.getByName` reads them, so
    every formatted address is shown to read back as itself, together with
    its port.
- **Host/port normalisation** (`HostNormalizer`).
  `unresolvedHostAndPortToNormalizedString` works in this order:
  1. It rejects ports outside 0..65535.
  2. It trims the host and lower-cases it.
  3. It writes an IPv6 literal in its bracketed compressed form and keeps an
     IPv4 literal.
  4. It refuses any other name that ends with '.' or contains ':'.

Shared text helpers live in `Text`: trim, ASCII lower case, split and join,
decimal and hexadecimal numerals, and Java `int` parsing. `Bytes` holds the
big-endian octet helpers and `Wrappers` the `Option` and `Result` types.

Every assertion of the test class is stated as a lemma over the model, and the
range assertions of the server tests also hold for any factory
(`ServerBinding.ServerWithinRange`). For
example, `PortRange.HadoopStylePorts` covers the 153 distinct ports of
`"50000-50050, 50100-50200,51234 "`, and `HostNormalizer.Ipv6HostExample`
normalises `2001:0db8:85a3:0000:0000:8a2e:0370:7334` to
`[2001:db8:85a3::8a2e:370:7334]:42`.

## Model

| member | source | states |
|---|---|---|
| PortRange.Ascending | flink-core/src/test/java/org/apache/flink/util/NetUtilsTest.java:119-125 | a range lo-hi stands for hi - lo + 1 ports, the k-th being lo + k, and for none when lo > hi |
| PortRange.Expand | flink-core/src/test/java/org/apache/flink/util/NetUtilsTest.java:113-125 | the ports of the tokens, left to right; ExpandMembers (p is handed out exactly when some token covers it) and ExpandAppend give it meaning |
| PortRange.IndexFrom | flink-core/src/test/java/org/apache/flink/util/NetUtilsTest.java:153-159 | the first '-' at or after i, or the end when there is none |
| PortRange.ParseToken | flink-core/src/test/java/org/apache/flink/util/NetUtilsTest.java:147-164 | a token that cannot be read fails with a number-format error; StrayCharRefused, DashAtEndRefused and BlankTokenRefused say which tokens cannot be read |
| PortRange.StrayPartRefused | flink-core/src/test/java/org/apache/flink/util/NetUtilsTest.java:147-149 | a part of a token holding a character that is neither blank, a digit nor a sign never reads as a bound |
| PortRange.StrayTrimmedRefused | flink-core/src/test/java/org/apache/flink/util/NetUtilsTest.java:147-149 | a trimmed token holding such a character fails, on either side of the dash |
| PortRange.StrayCharRefused | flink-core/src/test/java/org/apache/flink/util/NetUtilsTest.java:147-149 | any token holding such a character anywhere, a host name for one, fails |
| PortRange.DashAtEndRefused | flink-core/src/test/java/org/apache/flink/util/NetUtilsTest.java:151-159 | any token whose trimmed text starts or ends with '-' lacks a bound and fails |
| PortRange.BlankTokenRefused | flink-core/src/test/java/org/apache/flink/util/NetUtilsTest.java:161-164 | any token of blanks only, the empty one included, fails |
| PortRange.ParseTokens | flink-core/src/test/java/org/apache/flink/util/NetUtilsTest.java:147-164 | a list of tokens fails only with a number-format error |
| PortRange.ParseTokensElements | flink-core/src/test/java/org/apache/flink/util/NetUtilsTest.java:112-113 | an accepted list yields exactly one token per comma-separated element, each the reading of that element |
| PortRange.ParseTokensLength | flink-core/src/test/java/org/apache/flink/util/NetUtilsTest.java:112-113 | an accepted list has as many tokens as elements |
| PortRange.ParseTokensAt | flink-core/src/test/java/org/apache/flink/util/NetUtilsTest.java:112-113 | the i-th token is the reading of the i-th element |
| PortRange.ParseTokensRefusal | flink-core/src/test/java/org/apache/flink/util/NetUtilsTest.java:147-164 | a refused list has an element that does not parse |
| PortRange.ParsePortRangeFails | flink-core/src/test/java/org/apache/flink/util/NetUtilsTest.java:147-164 | a specification is refused if and only if some comma-separated element does not parse, and then with a number-format error |
| PortRange.ParsePortRange | flink-core/src/test/java/org/apache/flink/util/NetUtilsTest.java:112-164 | getPortRangeFromString: refusal is always a number-format error; ParsePortRangeFails (refused iff an element is unreadable), ParsedPortsCovered (both directions of membership) and SpecRoundTrip (written tokens parse to their ports) give it meaning |
| PortRange.AscendingMembers | flink-core/src/test/java/org/apache/flink/util/NetUtilsTest.java:119-125 | p is handed out by lo-hi exactly when lo <= p <= hi |
| PortRange.ExpandMembers | flink-core/src/test/java/org/apache/flink/util/NetUtilsTest.java:119-125 | p is handed out exactly when some token covers it |
| PortRange.ExpandAppend | flink-core/src/test/java/org/apache/flink/util/NetUtilsTest.java:119-125 | the ports of two token lists are the ports of the first followed by those of the second |
| PortRange.TokensCover | flink-core/src/test/java/org/apache/flink/util/NetUtilsTest.java:119-125 | an accepted token list hands out p exactly when one of its elements names p |
| PortRange.ParsedPortsCovered | flink-core/src/test/java/org/apache/flink/util/NetUtilsTest.java:119-125 | both directions: every port of an accepted specification is named by one of its elements, and every named port is handed out |
| PortRange.FormatTokens | flink-core/src/test/java/org/apache/flink/util/NetUtilsTest.java:112 | writing tokens gives one text per token |
| PortRange.DigitsHaveNo | flink-core/src/test/java/org/apache/flink/util/NetUtilsTest.java:112 | a decimal numeral holds no character other than digits, so no ',' and no '-' |
| PortRange.ParseTokenTrimmed | flink-core/src/test/java/org/apache/flink/util/NetUtilsTest.java:112 | blanks around a token do not change its reading |
| PortRange.SpanDash | flink-core/src/test/java/org/apache/flink/util/NetUtilsTest.java:112 | in a written range the first '-' is the separator after the lower bound |
| PortRange.SpanRoundTrip | flink-core/src/test/java/org/apache/flink/util/NetUtilsTest.java:112 | a written range lo-hi reads back as lo-hi |
| PortRange.TokenRoundTrip | flink-core/src/test/java/org/apache/flink/util/NetUtilsTest.java:112 | every writable token reads back as itself |
| PortRange.TokensRoundTrip | flink-core/src/test/java/org/apache/flink/util/NetUtilsTest.java:112 | a list of writable tokens reads back as itself |
| PortRange.FormattedTokensHaveNoComma | flink-core/src/test/java/org/apache/flink/util/NetUtilsTest.java:112 | written tokens contain no ',' |
| PortRange.ParseTokensCons | flink-core/src/test/java/org/apache/flink/util/NetUtilsTest.java:112 | reading a list with one more element in front adds that element's token in front |
| PortRange.ParseTokensOne | flink-core/src/test/java/org/apache/flink/util/NetUtilsTest.java:129 | a one-element list reads as its one token |
| PortRange.SpecRoundTrip | flink-core/src/test/java/org/apache/flink/util/NetUtilsTest.java:112-125 | a specification written from writable tokens parses to exactly the ports of those tokens |
| PortRange.CollectDistinct | flink-core/src/test/java/org/apache/flink/util/NetUtilsTest.java:114-119 | gathering the ports into a set succeeds exactly when no port repeats, and then the set holds every port and has as many elements as the list |
| PortRange.PaddedTokenRoundTrip | flink-core/src/test/java/org/apache/flink/util/NetUtilsTest.java:112 | a written token surrounded by blanks reads back as itself |
| PortRange.HadoopStyleSpec | flink-core/src/test/java/org/apache/flink/util/NetUtilsTest.java:112-125 | the example specification parses to those ports in that order |
| PortRange.RangesIncrease | flink-core/src/test/java/org/apache/flink/util/NetUtilsTest.java:115-117 | two ascending ranges followed by a larger port form a strictly increasing list |
| PortRange.HadoopStylePorts | flink-core/src/test/java/org/apache/flink/util/NetUtilsTest.java:112-125 | the example yields 51 + 101 + 1 = 153 ports, no duplicate, and a port is among them exactly when it lies in 50000..50050 or 50100..50200 or is 51234 |
| PortRange.HadoopStyleMembers | flink-core/src/test/java/org/apache/flink/util/NetUtilsTest.java:119-125 | the same count, distinctness and membership for the expected port list |
| PortRange.ParsePortRangeFrom | flink-core/src/test/java/org/apache/flink/util/NetUtilsTest.java:113 | a specification whose elements read as tokens ts yields the ports of ts |
| PortRange.ParsePortRangeRefused | flink-core/src/test/java/org/apache/flink/util/NetUtilsTest.java:147-164 | one unreadable element makes the whole specification fail with a number-format error |
| PortRange.SingleRangeSpec | flink-core/src/test/java/org/apache/flink/util/NetUtilsTest.java:229-230 | "50000-50050" parses to 50000..50050 |
| PortRange.SinglePortSpec | flink-core/src/test/java/org/apache/flink/util/NetUtilsTest.java:129-132 | " 51234" yields exactly the one port 51234 |
| PortRange.PortListSpec | flink-core/src/test/java/org/apache/flink/util/NetUtilsTest.java:135-142 | "5,1,2,3,4" yields 5, 1, 2, 3, 4 in that order and nothing else |
| PortRange.HostNameSpec | flink-core/src/test/java/org/apache/flink/util/NetUtilsTest.java:148-149 | "localhost" is refused with a number-format error |
| PortRange.MissingUpperBoundSpec | flink-core/src/test/java/org/apache/flink/util/NetUtilsTest.java:153-154 | "5-" is refused with a number-format error |
| PortRange.MissingLowerBoundSpec | flink-core/src/test/java/org/apache/flink/util/NetUtilsTest.java:158-159 | "-5" is refused with a number-format error |
| PortRange.TrailingEmptyTokenSpec | flink-core/src/test/java/org/apache/flink/util/NetUtilsTest.java:162-164 | "5," is refused with a number-format error: the empty element after the comma is an empty token, as is the one before the comma in ",5" |
| PortRange.EmptyTokenSpec | flink-core/src/test/java/org/apache/flink/util/NetUtilsTest.java:163-164 | ",5" is refused with a number-format error |
| ServerBinding.FirstBindable | flink-core/src/test/java/org/apache/flink/util/NetUtilsTest.java:236-272 | the position found is one where the factory builds a server and every earlier port failed; none is found only when every port fails |
| ServerBinding.BindOutcome | flink-core/src/test/java/org/apache/flink/util/NetUtilsTest.java:228-295 | the reference result of createServerFromPorts: the server at the first port FirstBindable finds, or a bind error; CreateServerFromPorts is proved equal to it |
| ServerBinding.CreateServerFromPorts | flink-core/src/test/java/org/apache/flink/util/NetUtilsTest.java:228-295 | a server comes back only from a port of the candidates at which the factory built it; a bind error comes back only when every candidate failed; the result is the reference outcome of the first port that works |
| ServerBinding.FirstFromThreshold | flink-core/src/test/java/org/apache/flink/util/NetUtilsTest.java:259-272 | when the factory fails below port t, the first working port of lo..hi is t |
| ServerBinding.ServerAtThreshold | flink-core/src/test/java/org/apache/flink/util/NetUtilsTest.java:259-272 | such a binder returns the server built at port t |
| ServerBinding.ServerWithinRange | flink-core/src/test/java/org/apache/flink/util/NetUtilsTest.java:241-272 | for any factory, a server handed back over an ascending range lo-hi has its port in lo..hi, and in t..hi when the factory throws at every port below t |
| ServerBinding.DocumentedScenarios | flink-core/src/test/java/org/apache/flink/util/NetUtilsTest.java:228-295 | on 50000-50050 a factory that always works binds 50000, one that fails below 50010 binds 50010, and one that always fails gives a bind error |
| Ipv4.TextToIpv4 | flink-core/src/test/java/org/apache/flink/util/NetUtilsTest.java:44 | an IPv4 literal denotes four octets |
| Ipv4.DottedQuad | flink-core/src/test/java/org/apache/flink/util/NetUtilsTest.java:42-45 | the dotted-quad form of four octets; Ipv4RoundTrip (it reads back as the address) gives it meaning |
| Ipv4.Ipv4RoundTrip | flink-core/src/test/java/org/apache/flink/util/NetUtilsTest.java:42-45 | the dotted quad of an address reads back as that address |
| Ipv4.DottedQuadSplit | flink-core/src/test/java/org/apache/flink/util/NetUtilsTest.java:42-45 | the dotted quad splits at its dots into the four octet numerals |
| Ipv4.DecimalOfOctet | flink-core/src/test/java/org/apache/flink/util/NetUtilsTest.java:42-45 | an octet is written with at most three digits |
| Ipv4.NotIpv4Literal | flink-core/src/test/java/org/apache/flink/util/NetUtilsTest.java:56-59 | text holding a character other than a digit or '.' is not an IPv4 literal |
| Ipv4.Ipv4LiteralShape | flink-core/src/test/java/org/apache/flink/util/NetUtilsTest.java:173-175 | an IPv4 literal is non-empty, holds only digits and dots, and does not end with '.' |
| Ipv6.Hextets | flink-core/src/test/java/org/apache/flink/util/NetUtilsTest.java:59-60 | sixteen octets make eight groups |
| Ipv6.Octets | flink-core/src/test/java/org/apache/flink/util/NetUtilsTest.java:59-60 | eight groups make sixteen octets |
| Ipv6.GroupParts | flink-core/src/test/java/org/apache/flink/util/NetUtilsTest.java:59-60 | a group's high and low octets are the two octets it was made of |
| Ipv6.HextetsOfOctets | flink-core/src/test/java/org/apache/flink/util/NetUtilsTest.java:59-60 | the groups of the octets of h are h |
| Ipv6.OctetsOfHextets | flink-core/src/test/java/org/apache/flink/util/NetUtilsTest.java:59-60 | the octets of the groups of b are b |
| Ipv6.RunFrom | flink-core/src/test/java/org/apache/flink/util/NetUtilsTest.java:56-57 | the zero groups starting at i form a run that cannot be extended |
| Ipv6.RunFromLongest | flink-core/src/test/java/org/apache/flink/util/NetUtilsTest.java:56-57 | no zero run at i is longer than the one found |
| Ipv6.LongestFrom | flink-core/src/test/java/org/apache/flink/util/NetUtilsTest.java:56-57 | the search returns the leftmost of the longest zero runs |
| Ipv6.LongestZeroRun | flink-core/src/test/java/org/apache/flink/util/NetUtilsTest.java:56-57 | the run chosen for "::" is the leftmost of the longest zero runs (RFC 5952, sections 4.2.1 and 4.2.3) |
| Ipv6.LeftmostLongestUnique | flink-core/src/test/java/org/apache/flink/util/NetUtilsTest.java:56-57 | there is only one leftmost longest zero run |
| Ipv6.CompressedText | flink-core/src/test/java/org/apache/flink/util/NetUtilsTest.java:56-60 | the RFC 5952 text form of eight groups; LongestZeroRun (the run written "::" is the leftmost longest), CompressedTextRoundTrip (it reads back as the groups), CompressedTextChars and NoZeroPairKeepsAllGroups give it meaning |
| Ipv6.Ipv6Text | flink-core/src/test/java/org/apache/flink/util/NetUtilsTest.java:179-181 | the text form of a 16-octet address; Ipv6RoundTrip (it reads back as the address) gives it meaning |
| Ipv6.ParseGroup | flink-core/src/test/java/org/apache/flink/util/NetUtilsTest.java:56-59 | a group that reads is non-empty hex and denotes its hex value |
| Ipv6.ParseGroupsFrom | flink-core/src/test/java/org/apache/flink/util/NetUtilsTest.java:56-59 | the groups read from position i are one per remaining part |
| Ipv6.ParseGroups | flink-core/src/test/java/org/apache/flink/util/NetUtilsTest.java:56-59 | one group is read per part |
| Ipv6.DoubleColonFrom | flink-core/src/test/java/org/apache/flink/util/NetUtilsTest.java:56-59 | the first "::" at or after i, or the end |
| Ipv6.TextToHextets | flink-core/src/test/java/org/apache/flink/util/NetUtilsTest.java:56-59 | an IPv6 literal denotes eight groups |
| Ipv6.TextToIpv6 | flink-core/src/test/java/org/apache/flink/util/NetUtilsTest.java:56-59 | an IPv6 literal denotes sixteen octets |
| Ipv6.ParseGroupOfHex | flink-core/src/test/java/org/apache/flink/util/NetUtilsTest.java:57-60 | the written form of a group reads back as the group |
| Ipv6.HexHasNoColon | flink-core/src/test/java/org/apache/flink/util/NetUtilsTest.java:57-60 | a written group holds only lower-case hex digits |
| Ipv6.GroupsShape | flink-core/src/test/java/org/apache/flink/util/NetUtilsTest.java:57-60 | consecutive groups are written non-empty, in lower-case hex and ':', without a ':' at either end and without "::" |
| Ipv6.GroupsRoundTrip | flink-core/src/test/java/org/apache/flink/util/NetUtilsTest.java:57-60 | written consecutive groups read back as those groups |
| Ipv6.ReadFourAndFour | flink-core/src/test/java/org/apache/flink/util/NetUtilsTest.java:56-60 | eight parts that spell groups h, joined with ':', form a literal denoting h |
| Ipv6.ReadEightGroups | flink-core/src/test/java/org/apache/flink/util/NetUtilsTest.java:56-60 | the same for a list of eight parts |
| Ipv6.GroupsSplit | flink-core/src/test/java/org/apache/flink/util/NetUtilsTest.java:57-60 | writing groups i..j is writing i..k, a ':', then k..j |
| Ipv6.GroupsJoined | flink-core/src/test/java/org/apache/flink/util/NetUtilsTest.java:57-60 | the same, with the two halves given as text |
| Ipv6.CompressedAround | flink-core/src/test/java/org/apache/flink/util/NetUtilsTest.java:57-60 | with a zero run of two or more, the compressed form is the groups before it, "::", then the groups after it |
| Ipv6.ParseGroupsEach | flink-core/src/test/java/org/apache/flink/util/NetUtilsTest.java:56-59 | parts that each spell a group read as those groups |
| Ipv6.FirstDoubleColon | flink-core/src/test/java/org/apache/flink/util/NetUtilsTest.java:57-60 | in written-left "::" right, the first "::" follows the left side |
| Ipv6.ParseSideOfGroups | flink-core/src/test/java/org/apache/flink/util/NetUtilsTest.java:57-60 | one side of a compressed form reads back as its groups |
| Ipv6.ReadAroundDoubleColon | flink-core/src/test/java/org/apache/flink/util/NetUtilsTest.java:56-59 | "::" stands for as many zero groups as are missing |
| Ipv6.ReadWithoutDoubleColon | flink-core/src/test/java/org/apache/flink/util/NetUtilsTest.java:90-94 | without "::", a literal is its eight groups |
| Ipv6.RefillRun | flink-core/src/test/java/org/apache/flink/util/NetUtilsTest.java:56-60 | refilling the removed zero run gives back the groups |
| Ipv6.CompressedRunRoundTrip | flink-core/src/test/java/org/apache/flink/util/NetUtilsTest.java:56-60 | replacing any zero run of two or more by "::" still reads back as the same groups |
| Ipv6.CompressedSides | flink-core/src/test/java/org/apache/flink/util/NetUtilsTest.java:56-60 | the first "::" of a compressed form separates its two sides, and each side reads back as its groups |
| Ipv6.AllGroupsRoundTrip | flink-core/src/test/java/org/apache/flink/util/NetUtilsTest.java:90-97 | all eight groups written out read back as themselves |
| Ipv6.CompressedTextRoundTrip | flink-core/src/test/java/org/apache/flink/util/NetUtilsTest.java:56-60 | the compressed form reads back as its groups |
| Ipv6.Ipv6RoundTrip | flink-core/src/test/java/org/apache/flink/util/NetUtilsTest.java:56-60 | the written form of an address reads back as that address |
| Ipv6.CompressedTextChars | flink-core/src/test/java/org/apache/flink/util/NetUtilsTest.java:57-60 | the compressed form is non-empty lower-case hex and ':' (RFC 5952, section 4.3) |
| Ipv6.CompressedRunChars | flink-core/src/test/java/org/apache/flink/util/NetUtilsTest.java:57-60 | the same for a form with "::" |
| Ipv6.NoZeroPairKeepsAllGroups | flink-core/src/test/java/org/apache/flink/util/NetUtilsTest.java:90-97 | without two adjacent zero groups nothing is compressed (RFC 5952, section 4.2.2) |
| Ipv6.Ipv6NeedsColon | flink-core/src/test/java/org/apache/flink/util/NetUtilsTest.java:173-175 | text without ':' is not an IPv6 literal |
| Ipv6.NotIpv6Literal | flink-core/src/test/java/org/apache/flink/util/NetUtilsTest.java:185-187 | text holding a character other than hex or ':' is not an IPv6 literal |
| Ipv6.PartHolding | flink-core/src/test/java/org/apache/flink/util/NetUtilsTest.java:185-187 | such a character makes the groups unreadable |
| Ipv6.ParseGroupsNone | flink-core/src/test/java/org/apache/flink/util/NetUtilsTest.java:185-187 | one unreadable part makes the whole list unreadable |
| Ipv6.ReadExampleA | flink-core/src/test/java/org/apache/flink/util/NetUtilsTest.java:56-59 | "2001:01db8:00:0:00:ff00:42:8329" denotes 2001, 1db8, 0, 0, 0, ff00, 42, 8329 |
| Ipv6.WriteExampleA | flink-core/src/test/java/org/apache/flink/util/NetUtilsTest.java:57-60 | those groups are written "2001:1db8::ff00:42:8329" |
| Ipv6.TextExampleB | flink-core/src/test/java/org/apache/flink/util/NetUtilsTest.java:90-97 | its compressed form is that same text |
| Ipv6.ExampleB | flink-core/src/test/java/org/apache/flink/util/NetUtilsTest.java:90-97 | "2001:db8:10:11:12:ff00:42:8329" reads as those groups and is written back unchanged |
| Ipv6.ReadExampleC | flink-core/src/test/java/org/apache/flink/util/NetUtilsTest.java:179-181 | "2001:0db8:85a3:0000:0000:8a2e:0370:7334" denotes 2001, db8, 85a3, 0, 0, 8a2e, 370, 7334 |
| Ipv6.WriteExampleC | flink-core/src/test/java/org/apache/flink/util/NetUtilsTest.java:179-181 | those groups are written "2001:db8:85a3::8a2e:370:7334" |
| AddressFormat.AddressOfLiteral | flink-core/src/test/java/org/apache/flink/util/NetUtilsTest.java:44 | an IPv4 address found in a literal is the one the text denotes |
| AddressFormat.LastIndexBefore | flink-core/src/test/java/org/apache/flink/util/NetUtilsTest.java:78 | the last ':' before position k, or -1 |
| AddressFormat.IpAddressToUrlString | flink-core/src/test/java/org/apache/flink/util/NetUtilsTest.java:45-60 | the URL form is non-empty and starts with '[' exactly for IPv6 addresses |
| AddressFormat.IpAddressAndPortToUrlString | flink-core/src/test/java/org/apache/flink/util/NetUtilsTest.java:78-98 | the URL form of an address, a ':' and the port; UrlRoundTrip (it reads back as address and port for every Java int port) gives it meaning |
| AddressFormat.SocketAddressToUrlString | flink-core/src/test/java/org/apache/flink/util/NetUtilsTest.java:79-99 | a resolved socket address gives the IP-and-port form asserted at 79 and 99; the refusal of an unresolved address, with an invalid-argument error, is the model's own choice, since nothing in the test class fixes it |
| AddressFormat.Ipv6TextHasColon | flink-core/src/test/java/org/apache/flink/util/NetUtilsTest.java:57-60 | the written IPv6 form is never an IPv4 literal |
| AddressFormat.UrlHostRoundTrip | flink-core/src/test/java/org/apache/flink/util/NetUtilsTest.java:40-66 | the URL form of any address reads back as that address |
| AddressFormat.UrlRoundTrip | flink-core/src/test/java/org/apache/flink/util/NetUtilsTest.java:77-99 | the URL form with a port reads back as that address and port |
| AddressFormat.SplitAtLastColon | flink-core/src/test/java/org/apache/flink/util/NetUtilsTest.java:78-98 | the port follows the last ':' of host ":" port |
| AddressFormat.SocketUrlRoundTrip | flink-core/src/test/java/org/apache/flink/util/NetUtilsTest.java:79-99 | a resolved socket address is written, and reads back as its address and port |
| AddressFormat.Ipv6UrlForm | flink-core/src/test/java/org/apache/flink/util/NetUtilsTest.java:57-60 | an IPv6 URL is a literal in square brackets: what lies between them reads back as the address and holds only lower-case hex digits and ':' |
| AddressFormat.Ipv6UrlWithoutZeroPair | flink-core/src/test/java/org/apache/flink/util/NetUtilsTest.java:90-97 | without two adjacent zero groups the URL holds all eight groups |
| AddressFormat.DottedQuadLiteral | flink-core/src/test/java/org/apache/flink/util/NetUtilsTest.java:42-45 | a dotted quad reads as its address, whose URL form is the same text |
| AddressFormat.Ipv4Example | flink-core/src/test/java/org/apache/flink/util/NetUtilsTest.java:40-51 | "192.168.0.1" reads as 192.168.0.1 and is written back unchanged |
| AddressFormat.Ipv4PortExample | flink-core/src/test/java/org/apache/flink/util/NetUtilsTest.java:68-85 | "10.244.243.12" reads back; its URL form is the same text, with port 23453 and as a socket address "10.244.243.12:23453" |
| AddressFormat.Ipv6LiteralReads | flink-core/src/test/java/org/apache/flink/util/NetUtilsTest.java:56-59 | every text that reads as an IPv6 literal denotes that IPv6 address, since it holds a colon and so is neither an IPv4 literal nor bracketed |
| AddressFormat.Ipv6LiteralExample | flink-core/src/test/java/org/apache/flink/util/NetUtilsTest.java:56-59 | "2001:01db8:00:0:00:ff00:42:8329" reads as the IPv6 address 2001:1db8:0:0:0:ff00:42:8329 |
| AddressFormat.Ipv6UrlExample | flink-core/src/test/java/org/apache/flink/util/NetUtilsTest.java:57-60 | that address is written "[2001:1db8::ff00:42:8329]" |
| AddressFormat.Ipv6PortLiteralExample | flink-core/src/test/java/org/apache/flink/util/NetUtilsTest.java:90-94 | "2001:db8:10:11:12:ff00:42:8329" reads as that IPv6 address |
| AddressFormat.Ipv6PortUrlExample | flink-core/src/test/java/org/apache/flink/util/NetUtilsTest.java:90-99 | that address is written in brackets, and with port 23453, directly and as a socket address |
| HostNormalizer.NormalizeHost | flink-core/src/test/java/org/apache/flink/util/NetUtilsTest.java:195-209 | a host is refused only with an invalid-argument error |
| HostNormalizer.NormalizeHostAndPort | flink-core/src/test/java/org/apache/flink/util/NetUtilsTest.java:170-224 | a port outside 0..65535 is refused; otherwise the pair is refused exactly when the host is; refusal is always an invalid-argument error |
| HostNormalizer.Cleaned | flink-core/src/test/java/org/apache/flink/util/NetUtilsTest.java:191-223 | the host trimmed, then lower-cased; CleanedIsTrimmed (no blank ends, no upper-case letter) gives it meaning |
| HostNormalizer.IllegalName | flink-core/src/test/java/org/apache/flink/util/NetUtilsTest.java:195-209 | a name ending with '.' or containing ':'; RefusedHosts (a host is refused exactly when, cleaned, it is such a name and no IPv6 literal) gives it meaning |
| HostNormalizer.CleanedIsTrimmed | flink-core/src/test/java/org/apache/flink/util/NetUtilsTest.java:191-193 | the cleaned host has no blank at either end and no upper-case letter |
| HostNormalizer.RefusedHosts | flink-core/src/test/java/org/apache/flink/util/NetUtilsTest.java:195-209 | a host is refused exactly when, cleaned, it is not an IPv6 literal and ends with '.' or contains ':' |
| HostNormalizer.Ipv4HostKept | flink-core/src/test/java/org/apache/flink/util/NetUtilsTest.java:172-176 | an IPv4 literal is kept as cleaned |
| HostNormalizer.NameKept | flink-core/src/test/java/org/apache/flink/util/NetUtilsTest.java:183-194 | any host whose cleaned form is neither an IPv6 literal nor an illegal name is accepted as that cleaned form, trimmed and lower-cased |
| HostNormalizer.Ipv6HostReadsBack | flink-core/src/test/java/org/apache/flink/util/NetUtilsTest.java:177-182 | any host whose cleaned form is an IPv6 literal is accepted in brackets, and the text between them reads back as the same address |
| HostNormalizer.PairText | flink-core/src/test/java/org/apache/flink/util/NetUtilsTest.java:170-224 | for a valid port and an accepted host, the result is the normalised host, a colon and the port in decimal |
| HostNormalizer.Ipv6TextCleaned | flink-core/src/test/java/org/apache/flink/util/NetUtilsTest.java:178-182 | the compressed IPv6 form is already trimmed and lower case |
| HostNormalizer.NormalizeHostIdempotent | flink-core/src/test/java/org/apache/flink/util/NetUtilsTest.java:170-224 | normalising a normalised name gives it back; a normalised IPv6 host is bracketed, and normalising its inside gives it back |
| HostNormalizer.NormalizedHostShape | flink-core/src/test/java/org/apache/flink/util/NetUtilsTest.java:189-224 | a normalised host has no upper-case letter and no blank at either end |
| HostNormalizer.BracketedShape | flink-core/src/test/java/org/apache/flink/util/NetUtilsTest.java:178-182 | the bracketed IPv6 form starts with '[', ends with ']' and has no upper-case letter |
| HostNormalizer.CleanHost | flink-core/src/test/java/org/apache/flink/util/NetUtilsTest.java:185-187 | a host without blanks at its ends or upper-case letters is its own cleaned form |
| HostNormalizer.NotLiteral | flink-core/src/test/java/org/apache/flink/util/NetUtilsTest.java:185-187 | a letter beyond 'f' rules out both kinds of address literal |
| HostNormalizer.Ipv4HostExample | flink-core/src/test/java/org/apache/flink/util/NetUtilsTest.java:171-176 | "1.2.3.4" with port 42 gives "1.2.3.4:42" |
| HostNormalizer.Ipv6HostExample | flink-core/src/test/java/org/apache/flink/util/NetUtilsTest.java:177-182 | with port 42 it gives "[2001:db8:85a3::8a2e:370:7334]:42" |
| HostNormalizer.HostNameExample | flink-core/src/test/java/org/apache/flink/util/NetUtilsTest.java:183-188 | with port 99 it gives "somerandomhostname:99" |
| HostNormalizer.PaddedHostNameExample | flink-core/src/test/java/org/apache/flink/util/NetUtilsTest.java:189-194 | with port 99 it gives the trimmed name followed by ":99" |
| HostNormalizer.IllegalExamples | flink-core/src/test/java/org/apache/flink/util/NetUtilsTest.java:195-218 | "illegalhost." and "illegalhost:fasf" with port 42, and "1.2.3.4" with port -1, are refused with an invalid-argument error |
| HostNormalizer.CamelCaseExample | flink-core/src/test/java/org/apache/flink/util/NetUtilsTest.java:219-224 | with port 99 it gives its lower-case form followed by ":99" |
| Text.Trim | flink-core/src/test/java/org/apache/flink/util/NetUtilsTest.java:193 | the trimmed text is no longer than the original and has no blank (character at or below ' ') at either end |
| Text.TrimKeepsTrimmed | flink-core/src/test/java/org/apache/flink/util/NetUtilsTest.java:193 | trimming text without blanks at its ends changes nothing |
| Text.TrimPadded | flink-core/src/test/java/org/apache/flink/util/NetUtilsTest.java:191-193 | trimming blanks + x + blanks gives x |
| Text.TrimAllBlank | flink-core/src/test/java/org/apache/flink/util/NetUtilsTest.java:161-164 | a text of blanks only, the empty one included, trims to the empty text |
| Text.TrimKeeps | flink-core/src/test/java/org/apache/flink/util/NetUtilsTest.java:147-164 | trimming keeps every non-blank character, and a non-blank last character stays last |
| Text.Lower | flink-core/src/test/java/org/apache/flink/util/NetUtilsTest.java:223 | lower-casing keeps the length and maps each character on its own |
| Text.LowerKeeps | flink-core/src/test/java/org/apache/flink/util/NetUtilsTest.java:223 | text without upper-case letters is its own lower-case form |
| Text.SplitParts | flink-core/src/test/java/org/apache/flink/util/NetUtilsTest.java:112 | the parts of a split contain no separator and join back to the text |
| Text.SplitJoin | flink-core/src/test/java/org/apache/flink/util/NetUtilsTest.java:112 | joining parts without the separator and splitting again gives the parts |
| Text.IntToString | flink-core/src/test/java/org/apache/flink/util/NetUtilsTest.java:78 | a decimal integer is a '-' for negatives followed by digits |
| Text.ParseInt | flink-core/src/test/java/org/apache/flink/util/NetUtilsTest.java:147-164 | a parsed number is a Java int read from non-empty text made of ASCII digits with at most one leading sign, never a sign alone |
| Text.IntRefused | flink-core/src/test/java/org/apache/flink/util/NetUtilsTest.java:147-164 | a character other than a digit or sign, a sign past the front, or a sign alone makes Integer.parseInt fail |
| Text.ParseIntToString | flink-core/src/test/java/org/apache/flink/util/NetUtilsTest.java:112 | every Java int reads back from its decimal form |
| Text.DecimalDenotes | flink-core/src/test/java/org/apache/flink/util/NetUtilsTest.java:42-45 | the decimal form of n is canonical and denotes n |
| Text.DecimalOfValue | flink-core/src/test/java/org/apache/flink/util/NetUtilsTest.java:42-45 | a canonical decimal numeral is the decimal form of its value |
| Text.HexDenotes | flink-core/src/test/java/org/apache/flink/util/NetUtilsTest.java:57 | the hex form of n is canonical (lower case, no leading zero; RFC 5952, sections 4.1 and 4.3) and denotes n |
| Bytes.BigEndianRoundTrip | flink-core/src/test/java/org/apache/flink/util/NetUtilsTest.java:44 | a value written as k big-endian octets reads back as itself |

## Left out

- Sockets, name resolution and I/O are left out. The server factory is a total function from an address and a port to "built a server" or "failed". `getByName` is modelled only on address literals, so host names are never resolved. A null host is not representable.
- The factory's exception and its cause are left out. Any failure moves on to the next port, and exhausting all ports gives a bind error.
- The iterator returned by `getPortRangeFromString` is a finished sequence, so its laziness is not modelled. The model keeps duplicate ports; the test class does not say whether the parser removes ports named twice by overlapping ranges.
- PortRange.ParsePortRange: refuses an empty element at the end of the text ("5,") as an empty token, where Java's String.split would drop it. "5, " is refused under both readings, since its last element " " is not empty and is empty once trimmed. The two readings would also differ if the whole text were trimmed before splitting, which the test class does not show.
- PortRange.ParsePortRange: does not check that ports lie in 0..65535, because no assertion of the test class asks for it. Any Java `int` is accepted as a bound.
- Java's `Integer.parseInt` accepts non-ASCII Unicode digits; only ASCII digits are modelled. `toLowerCase` and `trim` are modelled on ASCII letters and on characters up to ' '.
- IPv6 scope identifiers (`%eth0`), embedded IPv4 tails (`::ffff:1.2.3.4`) and the platform's conversion of IPv4-mapped IPv6 addresses to IPv4 are not part of the literal reader.
- HostNormalizer.NormalizeHost: only the name rules the test class exercises are modelled, namely a trailing '.' or any ':'. Other host-name checks (a leading '.', invalid characters, label lengths) are not, since nothing in the test class fixes them.
- The implementation class `NetUtils` is not part of this model. The behaviour modelled is the behaviour its test class asserts, with the platform's literal and string rules written out.
