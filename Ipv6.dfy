/** IPv6 addresses as eight 16-bit groups: reading the colon-separated text
    form of an address literal, and writing the compressed text form of
    RFC 5952 that the URL formatting and the host normalisation emit. */
module Ipv6 {
  import opened Wrappers
  import opened Text
  import opened Bytes

  type Hextet = h: int | 0 <= h < 0x1_0000

  // ---------------------------------------------------------------- bytes and groups

  /** The eight groups of a 16-byte address, most significant byte first. */
  function Hextets(b: seq<Byte>): (h: seq<Hextet>)
    requires |b| == 16
    ensures |h| == 8
  {
    seq(8, i requires 0 <= i < 8 => GroupOf(b[2 * i], b[2 * i + 1]))
  }

  function GroupOf(hi: Byte, lo: Byte): Hextet
  {
    hi * 0x100 + lo
  }

  /** The sixteen bytes of eight groups. */
  function Octets(h: seq<Hextet>): (b: seq<Byte>)
    requires |h| == 8
    ensures |b| == 16
  {
    seq(16, i requires 0 <= i < 16 => if i % 2 == 0 then h[i / 2] / 0x100 else h[i / 2] % 0x100)
  }

  /** Helper: a group splits back into the two octets it was made of. */
  lemma GroupParts(hi: Byte, lo: Byte)
    ensures GroupOf(hi, lo) / 0x100 == hi && GroupOf(hi, lo) % 0x100 == lo
  {
  }

  /** Grouping the bytes of eight groups gives the groups back. */
  lemma HextetsOfOctets(h: seq<Hextet>)
    requires |h| == 8
    ensures Hextets(Octets(h)) == h
  {
    var b := Octets(h);
    forall i | 0 <= i < 8
      ensures Hextets(b)[i] == h[i]
    {
      assert b[2 * i] == h[i] / 0x100 && b[2 * i + 1] == h[i] % 0x100;
    }
  }

  /** Splitting the groups of sixteen bytes gives the bytes back. */
  lemma OctetsOfHextets(b: seq<Byte>)
    requires |b| == 16
    ensures Octets(Hextets(b)) == b
  {
    var h := Hextets(b);
    forall j | 0 <= j < 16
      ensures Octets(h)[j] == b[j]
    {
      var i := j / 2;
      assert h[i] == GroupOf(b[2 * i], b[2 * i + 1]);
      GroupParts(b[2 * i], b[2 * i + 1]);
    }
  }

  // ---------------------------------------------------------------- runs of zero groups

  /** Groups s .. s + n - 1 exist and are all zero. */
  predicate ZeroRun(h: seq<Hextet>, s: nat, n: nat)
  {
    s + n <= |h| && forall j :: s <= j < s + n ==> h[j] == 0
  }

  /** (s, n) is the leftmost of the longest runs of zero groups (RFC 5952
      sections 4.2.1 and 4.2.3); (0, 0) when no group is zero. */
  ghost predicate LeftmostLongest(h: seq<Hextet>, s: nat, n: nat)
  {
    && ZeroRun(h, s, n)
    && (forall t: nat, m: nat :: ZeroRun(h, t, m) ==> m <= n)
    && (forall t: nat :: t < s ==> !ZeroRun(h, t, n))
  }

  /** Number of zero groups from position i on, up to the first non-zero group. */
  function RunFrom(h: seq<Hextet>, i: nat): (n: nat)
    requires i <= |h|
    ensures ZeroRun(h, i, n)
    ensures i + n < |h| ==> h[i + n] != 0
    decreases |h| - i
  {
    if i == |h| || h[i] != 0 then 0 else 1 + RunFrom(h, i + 1)
  }

  /** No run of zero groups from i is longer than RunFrom(h, i). */
  lemma RunFromLongest(h: seq<Hextet>, i: nat)
    requires i <= |h|
    ensures forall m: nat :: ZeroRun(h, i, m) ==> m <= RunFrom(h, i)
  {
  }

  /** The scan for the run to compress: (s, n) is the leftmost longest run
      among those starting before i; a run replaces it only when it is
      strictly longer, so the leftmost one wins a tie. */
  function LongestFrom(h: seq<Hextet>, i: nat, s: nat, n: nat): (r: (nat, nat))
    requires i <= |h| && ZeroRun(h, s, n)
    requires forall t: nat, m: nat :: t < i && ZeroRun(h, t, m) ==> m <= n
    requires forall t: nat :: t < s ==> !ZeroRun(h, t, n)
    ensures LeftmostLongest(h, r.0, r.1)
    decreases |h| - i
  {
    if i == |h| then (s, n)
    else
      var m := RunFrom(h, i);
      RunFromLongest(h, i);
      if m > n then LongestFrom(h, i + 1, i, m) else LongestFrom(h, i + 1, s, n)
  }

  /** The run of zero groups that the text form compresses. */
  function LongestZeroRun(h: seq<Hextet>): (r: (nat, nat))
    ensures LeftmostLongest(h, r.0, r.1)
  {
    LongestFrom(h, 0, 0, 0)
  }

  /** There is only one leftmost longest run. */
  lemma LeftmostLongestUnique(h: seq<Hextet>, s1: nat, n1: nat, s2: nat, n2: nat)
    requires LeftmostLongest(h, s1, n1) && LeftmostLongest(h, s2, n2)
    ensures s1 == s2 && n1 == n2
  {
  }

  // ---------------------------------------------------------------- writing

  /** Groups i .. j - 1, each in lower-case hexadecimal without leading
      zeros (RFC 5952 sections 4.1 and 4.3), separated by colons. */
  function Groups(h: seq<Hextet>, i: nat, j: nat): (t: string)
    requires i <= j <= |h|
    decreases j - i
  {
    if i == j then ""
    else if i + 1 == j then Hex(h[i])
    else Hex(h[i]) + ":" + Groups(h, i + 1, j)
  }

  /** The text form of RFC 5952: the leftmost longest run of two or more zero
      groups is written "::" (section 4.2); a single zero group is kept. */
  function CompressedText(h: seq<Hextet>): (t: string)
    requires |h| == 8
  {
    var r := LongestZeroRun(h);
    if r.1 >= 2 then Groups(h, 0, r.0) + "::" + Groups(h, r.0 + r.1, 8)
    else Groups(h, 0, 8)
  }

  /** The text form of a 16-byte address, without brackets. */
  function Ipv6Text(b: seq<Byte>): string
    requires |b| == 16
  {
    CompressedText(Hextets(b))
  }

  // ---------------------------------------------------------------- reading

  /** One group: at least one hexadecimal digit, in either case and with any
      number of leading zeros, worth at most 0xffff. */
  function ParseGroup(t: string): (r: Option<Hextet>)
    ensures r.Some? ==> |t| > 0 && AllHex(t) && r.value == HexValue(t)
  {
    if |t| > 0 && AllHex(t) && HexValue(t) <= 0xffff then Some(HexValue(t)) else None
  }

  /** Parts i .. |parts| - 1, each a group. */
  function ParseGroupsFrom(parts: seq<string>, i: nat): (r: Option<seq<Hextet>>)
    requires i <= |parts|
    ensures r.Some? ==> |r.value| == |parts| - i
    decreases |parts| - i
  {
    if i == |parts| then Some([])
    else
      match ParseGroup(parts[i])
      case None => None
      case Some(g) =>
        match ParseGroupsFrom(parts, i + 1)
        case None => None
        case Some(gs) => Some([g] + gs)
  }

  function ParseGroups(parts: seq<string>): (r: Option<seq<Hextet>>)
    ensures r.Some? ==> |r.value| == |parts|
  {
    ParseGroupsFrom(parts, 0)
  }

  /** One side of "::": nothing, or colon-separated groups. */
  function ParseSide(t: string): (r: Option<seq<Hextet>>)
  {
    if t == "" then Some([]) else ParseGroups(Split(t, ':'))
  }

  predicate ColonPair(s: string, j: nat)
  {
    j + 1 < |s| && s[j] == ':' && s[j + 1] == ':'
  }

  /** Position of the first "::" at or after i, or |s| when there is none. */
  function DoubleColonFrom(s: string, i: nat): (k: nat)
    requires i <= |s|
    ensures i <= k <= |s|
    ensures k < |s| ==> ColonPair(s, k)
    ensures forall j :: i <= j < k ==> !ColonPair(s, j)
    decreases |s| - i
  {
    if i + 1 >= |s| then |s|
    else if ColonPair(s, i) then i
    else DoubleColonFrom(s, i + 1)
  }

  function Zeros(n: nat): (z: seq<Hextet>)
    ensures |z| == n && forall j :: 0 <= j < n ==> z[j] == 0
  {
    seq(n, _ => 0)
  }

  /** The groups of an address literal: eight groups, or fewer around a single
      "::" that stands for at least one zero group. None when the text is not
      such a literal: a stray or third colon, an empty or too large group, a
      character other than a hexadecimal digit or a colon, or a wrong count. */
  function TextToHextets(s: string): (r: Option<seq<Hextet>>)
    ensures r.Some? ==> |r.value| == 8
  {
    var k := DoubleColonFrom(s, 0);
    if k == |s| then
      match ParseGroups(Split(s, ':'))
      case None => None
      case Some(h) => if |h| == 8 then Some(h) else None
    else
      match ParseSide(s[..k])
      case None => None
      case Some(l) =>
        match ParseSide(s[k + 2..])
        case None => None
        case Some(r) => if |l| + |r| <= 7 then Some(l + Zeros(8 - |l| - |r|) + r) else None
  }

  /** The sixteen bytes of an address literal. */
  function TextToIpv6(s: string): (r: Option<seq<Byte>>)
    ensures r.Some? ==> |r.value| == 16
  {
    match TextToHextets(s)
    case None => None
    case Some(h) => Some(Octets(h))
  }

  // ---------------------------------------------------------------- reading back what is written

  /** A group reads back as its value. */
  lemma ParseGroupOfHex(v: Hextet)
    ensures ParseGroup(Hex(v)) == Some(v)
  {
    HexDenotes(v);
  }

  /** No character of a written group is a colon. */
  lemma HexHasNoColon(v: nat)
    ensures ':' !in Hex(v)
    ensures forall c :: c in Hex(v) ==> IsLowerHex(c)
  {
    HexDenotes(v);
  }

  /** Written groups are non-empty, hold lower-case hexadecimal digits and
      single colons, and neither start nor end with a colon. */
  lemma {:induction false} GroupsShape(h: seq<Hextet>, i: nat, j: nat)
    requires i < j <= |h|
    ensures var t := Groups(h, i, j);
      && |t| > 0 && t[0] != ':' && t[|t| - 1] != ':'
      && (forall k :: 0 <= k < |t| ==> IsLowerHex(t[k]) || t[k] == ':')
      && (forall k :: 0 <= k < |t| ==> !ColonPair(t, k))
    decreases j - i
  {
    var x := Hex(h[i]);
    HexHasNoColon(h[i]);
    assert x[0] in x && x[|x| - 1] in x;
    if i + 1 < j {
      GroupsShape(h, i + 1, j);
      var g := Groups(h, i + 1, j);
      var t := Groups(h, i, j);
      assert t == x + ":" + g;
      forall k | 0 <= k < |t|
        ensures IsLowerHex(t[k]) || t[k] == ':'
      {
        if k < |x| {
          assert t[k] == x[k] && x[k] in x;
        } else if k > |x| {
          assert t[k] == g[k - |x| - 1];
        }
      }
      forall k | 0 <= k < |t|
        ensures !ColonPair(t, k)
      {
        if k < |x| {
          assert t[k] == x[k] && x[k] in x;
        } else if k == |x| {
          assert t[k + 1] == g[0];
        } else {
          assert t[k] == g[k - |x| - 1];
          if k + 1 < |t| {
            assert t[k + 1] == g[k - |x|];
            assert !ColonPair(g, k - |x| - 1);
          }
        }
      }
    } else {
      forall k | 0 <= k < |x|
        ensures IsLowerHex(x[k])
      {
        assert x[k] in x;
      }
    }
  }

  /** Splitting written groups at the colons and reading each part gives the groups back. */
  lemma {:induction false} GroupsRoundTrip(h: seq<Hextet>, i: nat, j: nat)
    requires i < j <= |h|
    ensures ParseGroups(Split(Groups(h, i, j), ':')) == Some(h[i..j])
    decreases j - i
  {
    var x := Hex(h[i]);
    HexHasNoColon(h[i]);
    ParseGroupOfHex(h[i]);
    if i + 1 == j {
      SplitWithout(x, ':');
      assert ParseGroupsFrom([x], 1) == Some([]);
      assert [h[i]] + [] == [h[i]] == h[i..j];
    } else {
      var g := Groups(h, i + 1, j);
      GroupsRoundTrip(h, i + 1, j);
      SplitPrefix(x, g, ':');
      assert x + ":" + g == x + [':'] + g;
      ParseGroupsCons(x, Split(g, ':'));
      assert [h[i]] + h[i + 1..j] == h[i..j];
    }
  }

  /** Four spelled groups, read from position k of h on. */
  predicate SpellsGroups(a: seq<string>, h: seq<Hextet>, k: nat)
    requires |a| == 4 && k + 4 <= |h|
  {
    && ParseGroup(a[0]) == Some(h[k]) && ParseGroup(a[1]) == Some(h[k + 1])
    && ParseGroup(a[2]) == Some(h[k + 2]) && ParseGroup(a[3]) == Some(h[k + 3])
  }

  /** Text made of eight groups, spelled in any way a group may be, joined by
      colons, reads as those groups and is written in the compressed form. */
  lemma ReadFourAndFour(s: string, a: seq<string>, b: seq<string>, h: seq<Hextet>)
    requires |a| == 4 && |b| == 4 && |h| == 8 && Join(a + b, ':') == s
    requires SpellsGroups(a, h, 0) && SpellsGroups(b, h, 4)
    ensures TextToIpv6(s) == Some(Octets(h))
    ensures Ipv6Text(Octets(h)) == CompressedText(h)
  {
    var parts := a + b;
    assert parts[0] == a[0] && parts[1] == a[1] && parts[2] == a[2] && parts[3] == a[3];
    assert parts[4] == b[0] && parts[5] == b[1] && parts[6] == b[2] && parts[7] == b[3];
    forall i | 0 <= i < 8
      ensures ParseGroup(parts[i]) == Some(h[i])
    {
      if i == 0 {
      } else if i == 1 {
      } else if i == 2 {
      } else if i == 3 {
      } else if i == 4 {
      } else if i == 5 {
      } else if i == 6 {
      } else {
        assert i == 7;
      }
    }
    ReadEightGroups(s, parts, h);
  }

  /** Eight colon-separated groups, each in any spelling ParseGroup accepts,
      read as their values, and the address they make is written in the
      compressed form of those values. */
  lemma ReadEightGroups(s: string, parts: seq<string>, h: seq<Hextet>)
    requires |parts| == 8 && |h| == 8 && Join(parts, ':') == s
    requires forall i :: 0 <= i < 8 ==> ParseGroup(parts[i]) == Some(h[i])
    ensures TextToIpv6(s) == Some(Octets(h))
    ensures Ipv6Text(Octets(h)) == CompressedText(h)
  {
    forall i | 0 <= i < 8
      ensures parts[i] != "" && ':' !in parts[i]
    {
      assert AllHex(parts[i]);
    }
    forall p | p in parts
      ensures ':' !in p
    {
    }
    SplitJoin(parts, ':');
    JoinNoDoubleSep(parts, ':');
    assert DoubleColonFrom(s, 0) == |s|;
    ParseGroupsEach(parts, h, 0);
    assert h[0..] == h;
    ReadWithoutDoubleColon(s, h);
    HextetsOfOctets(h);
  }

  /** Written groups i .. j - 1 are groups i .. k - 1 and k .. j - 1 with a colon between. */
  lemma {:induction false} GroupsSplit(h: seq<Hextet>, i: nat, k: nat, j: nat)
    requires i < k < j <= |h|
    ensures Groups(h, i, j) == Groups(h, i, k) + ":" + Groups(h, k, j)
    decreases k - i
  {
    var x, b := Hex(h[i]), Groups(h, k, j);
    if i + 1 < k {
      var a := Groups(h, i + 1, k);
      GroupsSplit(h, i + 1, k, j);
      assert Groups(h, i, j) == x + ":" + (a + ":" + b);
      assert Groups(h, i, k) == x + ":" + a;
      assert x + ":" + (a + ":" + b) == (x + ":" + a) + ":" + b;
    } else {
      assert Groups(h, i, j) == x + ":" + b;
    }
  }

  /** Groups i .. j - 1 are written as the texts of groups i .. k - 1 and
      k .. j - 1 with a colon between. */
  lemma GroupsJoined(h: seq<Hextet>, i: nat, k: nat, j: nat, x: string, y: string)
    requires i < k < j <= |h| && Groups(h, i, k) == x && Groups(h, k, j) == y
    ensures Groups(h, i, j) == x + ":" + y
  {
    GroupsSplit(h, i, k, j);
  }

  /** The compressed form around a known run: the groups before it, "::" and
      the groups after it. */
  lemma CompressedAround(h: seq<Hextet>, s: nat, n: nat, x: string, y: string)
    requires |h| == 8 && LongestZeroRun(h) == (s, n) && n >= 2
    requires Groups(h, 0, s) == x && Groups(h, s + n, 8) == y
    ensures CompressedText(h) == x + "::" + y
  {
  }

  /** Parts read as groups when each of them is one. */
  lemma {:induction false} ParseGroupsEach(parts: seq<string>, h: seq<Hextet>, i: nat)
    requires |parts| == |h| && i <= |parts|
    requires forall j :: i <= j < |parts| ==> ParseGroup(parts[j]) == Some(h[j])
    ensures ParseGroupsFrom(parts, i) == Some(h[i..])
    decreases |parts| - i
  {
    if i < |parts| {
      ParseGroupsEach(parts, h, i + 1);
      assert [h[i]] + h[i + 1..] == h[i..];
    } else {
      assert h[i..] == [];
    }
  }

  /** Parts read as groups, with one more part in front. */
  lemma ParseGroupsCons(x: string, parts: seq<string>)
    ensures ParseGroups([x] + parts) ==
      match (ParseGroup(x), ParseGroups(parts))
      case (Some(g), Some(gs)) => Some([g] + gs)
      case _ => None
  {
    ParseGroupsShift([x] + parts, parts, 1);
  }

  lemma {:induction false} ParseGroupsShift(a: seq<string>, b: seq<string>, d: nat)
    requires d <= |a| && a[d..] == b
    ensures ParseGroupsFrom(a, d) == ParseGroups(b)
  {
    ParseGroupsShiftFrom(a, b, d, 0);
  }

  lemma {:induction false} ParseGroupsShiftFrom(a: seq<string>, b: seq<string>, d: nat, i: nat)
    requires d <= |a| && a[d..] == b && i <= |b|
    ensures ParseGroupsFrom(a, d + i) == ParseGroupsFrom(b, i)
    decreases |b| - i
  {
    if i < |b| {
      assert a[d + i] == b[i];
      ParseGroupsShiftFrom(a, b, d, i + 1);
    }
  }

  /** Written groups hold no "::", so the first "::" of a compressed text is the one between its sides. */
  lemma FirstDoubleColon(l: string, r: string)
    requires l == "" || l[|l| - 1] != ':'
    requires forall k :: 0 <= k < |l| ==> !ColonPair(l, k)
    ensures DoubleColonFrom(l + "::" + r, 0) == |l|
  {
    var s := l + "::" + r;
    assert ColonPair(s, |l|);
    forall k | 0 <= k < |l|
      ensures !ColonPair(s, k)
    {
      if k + 1 < |l| {
        assert s[k] == l[k] && s[k + 1] == l[k + 1];
        assert !ColonPair(l, k);
      } else {
        assert s[k] == l[|l| - 1];
      }
    }
  }

  lemma ParseSideOfGroups(h: seq<Hextet>, i: nat, j: nat)
    requires i <= j <= |h|
    ensures ParseSide(Groups(h, i, j)) == Some(h[i..j])
  {
    if i < j {
      GroupsShape(h, i, j);
      GroupsRoundTrip(h, i, j);
    } else {
      assert h[i..j] == [];
    }
  }

  /** Reading a text with "::" at k, given what its two sides read as. */
  lemma ReadAroundDoubleColon(t: string, k: nat, l: seq<Hextet>, r: seq<Hextet>)
    requires k < |t| && DoubleColonFrom(t, 0) == k
    requires ParseSide(t[..k]) == Some(l) && ParseSide(t[k + 2..]) == Some(r) && |l| + |r| <= 7
    ensures TextToHextets(t) == Some(l + Zeros(8 - |l| - |r|) + r)
  {
  }

  /** Reading a text without "::", given what its parts read as. */
  lemma ReadWithoutDoubleColon(t: string, h: seq<Hextet>)
    requires DoubleColonFrom(t, 0) == |t| && ParseGroups(Split(t, ':')) == Some(h) && |h| == 8
    ensures TextToHextets(t) == Some(h)
  {
  }

  /** The run of zero groups put back between its two sides. */
  lemma RefillRun(h: seq<Hextet>, s: nat, n: nat)
    requires |h| == 8 && ZeroRun(h, s, n)
    ensures 8 - |h[0..s]| - |h[s + n..8]| == n
    ensures h[0..s] + Zeros(n) + h[s + n..8] == h
  {
  }

  /** A compressed text reads back as its groups, the "::" standing for the run. */
  lemma CompressedRunRoundTrip(h: seq<Hextet>, s: nat, n: nat)
    requires |h| == 8 && ZeroRun(h, s, n) && n >= 2
    ensures TextToHextets(Groups(h, 0, s) + "::" + Groups(h, s + n, 8)) == Some(h)
  {
    var l := Groups(h, 0, s);
    var t := l + "::" + Groups(h, s + n, 8);
    CompressedSides(h, s, n, l, t);
    RefillRun(h, s, n);
    ReadAroundDoubleColon(t, |l|, h[0..s], h[s + n..8]);
  }

  /** In a compressed text the first "::" is the one after the leading groups,
      and each side reads back as its groups. */
  lemma CompressedSides(h: seq<Hextet>, s: nat, n: nat, l: string, t: string)
    requires |h| == 8 && s + n <= 8
    requires l == Groups(h, 0, s) && t == l + "::" + Groups(h, s + n, 8)
    ensures |l| < |t| && DoubleColonFrom(t, 0) == |l|
    ensures ParseSide(t[..|l|]) == Some(h[0..s])
    ensures ParseSide(t[|l| + 2..]) == Some(h[s + n..8])
  {
    var rt := Groups(h, s + n, 8);
    assert DoubleColonFrom(t, 0) == |l| by {
      if s > 0 {
        GroupsShape(h, 0, s);
      }
      FirstDoubleColon(l, rt);
    }
    assert ParseSide(t[..|l|]) == Some(h[0..s]) by {
      assert t[..|l|] == l;
      ParseSideOfGroups(h, 0, s);
    }
    assert ParseSide(t[|l| + 2..]) == Some(h[s + n..8]) by {
      assert t[|l| + 2..] == rt;
      ParseSideOfGroups(h, s + n, 8);
    }
  }


  /** A text of all eight groups reads back as them. */
  lemma AllGroupsRoundTrip(h: seq<Hextet>)
    requires |h| == 8
    ensures TextToHextets(Groups(h, 0, 8)) == Some(h)
  {
    var t := Groups(h, 0, 8);
    GroupsShape(h, 0, 8);
    assert DoubleColonFrom(t, 0) == |t|;
    GroupsRoundTrip(h, 0, 8);
    assert h[0..8] == h;
    ReadWithoutDoubleColon(t, h);
  }

  /** The text form reads back as the groups it was written from. */
  lemma CompressedTextRoundTrip(h: seq<Hextet>)
    requires |h| == 8
    ensures TextToHextets(CompressedText(h)) == Some(h)
  {
    var r := LongestZeroRun(h);
    if r.1 >= 2 {
      CompressedRunRoundTrip(h, r.0, r.1);
    } else {
      AllGroupsRoundTrip(h);
    }
  }

  /** Reading the written form of an address gives the address back. */
  lemma Ipv6RoundTrip(b: seq<Byte>)
    requires |b| == 16
    ensures TextToIpv6(Ipv6Text(b)) == Some(b)
  {
    CompressedTextRoundTrip(Hextets(b));
    OctetsOfHextets(b);
  }

  /** The written form is non-empty and holds only lower-case hexadecimal
      digits and colons: no upper case and no blanks. */
  lemma CompressedTextChars(h: seq<Hextet>)
    requires |h| == 8
    ensures |CompressedText(h)| > 0
    ensures forall k :: 0 <= k < |CompressedText(h)| ==>
      IsLowerHex(CompressedText(h)[k]) || CompressedText(h)[k] == ':'
  {
    var r := LongestZeroRun(h);
    if r.1 >= 2 {
      var t := Groups(h, 0, r.0) + "::" + Groups(h, r.0 + r.1, 8);
      CompressedRunChars(h, r.0, r.1, t);
      assert CompressedText(h) == t;
    } else {
      GroupsShape(h, 0, 8);
    }
  }

  /** Groups around a run, with "::" between, hold only lower-case
      hexadecimal digits and colons. */
  lemma CompressedRunChars(h: seq<Hextet>, s: nat, n: nat, t: string)
    requires |h| == 8 && s + n <= 8 && n >= 2
    requires t == Groups(h, 0, s) + "::" + Groups(h, s + n, 8)
    ensures forall k :: 0 <= k < |t| ==> IsLowerHex(t[k]) || t[k] == ':'
  {
    var l, rt := Groups(h, 0, s), Groups(h, s + n, 8);
    if s > 0 {
      GroupsShape(h, 0, s);
    }
    if s + n < 8 {
      GroupsShape(h, s + n, 8);
    }
    forall k | 0 <= k < |t|
      ensures IsLowerHex(t[k]) || t[k] == ':'
    {
      if k < |l| {
        assert t[k] == l[k];
      } else if k >= |l| + 2 {
        assert t[k] == rt[k - |l| - 2];
      }
    }
  }


  /** Without two adjacent zero groups nothing is compressed: all eight groups
      are written, as RFC 5952 section 4.2.2 requires for a single zero group. */
  lemma NoZeroPairKeepsAllGroups(h: seq<Hextet>)
    requires |h| == 8
    requires forall i :: 0 <= i < 7 ==> h[i] != 0 || h[i + 1] != 0
    ensures CompressedText(h) == Groups(h, 0, 8)
  {
    var r := LongestZeroRun(h);
    ZeroPairOfRun(h, r.0, r.1);
  }

  /** A run of two or more zero groups starts with two adjacent zero groups. */
  lemma ZeroPairOfRun(h: seq<Hextet>, s: nat, n: nat)
    requires ZeroRun(h, s, n)
    ensures n >= 2 ==> h[s] == 0 && h[s + 1] == 0
  {
  }

  /** An address literal holds at least one colon. */
  lemma Ipv6NeedsColon(s: string)
    requires ':' !in s
    ensures TextToIpv6(s) == None
  {
    SplitWithout(s, ':');
  }

  /** A character other than a hexadecimal digit or a colon rules out a literal. */
  lemma NotIpv6Literal(s: string, i: nat)
    requires i < |s| && s[i] != ':' && HexDigitValue(s[i]).None?
    ensures TextToIpv6(s) == None
  {
    var k := DoubleColonFrom(s, 0);
    if k == |s| {
      PartHolding(s, i);
    } else if i < k {
      assert s[..k][i] == s[i];
      PartHolding(s[..k], i);
    } else {
      assert i >= k + 2;
      assert s[k + 2..][i - k - 2] == s[i];
      PartHolding(s[k + 2..], i - k - 2);
    }
  }

  /** Splitting at colons puts a character that is not a hexadecimal digit
      into a part that is not a group. */
  lemma PartHolding(t: string, i: nat)
    requires i < |t| && t[i] != ':' && HexDigitValue(t[i]).None?
    ensures ParseGroups(Split(t, ':')) == None
  {
    var parts := Split(t, ':');
    SplitParts(t, ':');
    var p := JoinedCharPart(parts, ':', i);
    var q :| 0 <= q < |parts[p]| && parts[p][q] == t[i];
    assert !AllHex(parts[p]);
    ParseGroupsNone(parts, 0, p);
  }

  lemma {:induction false} ParseGroupsNone(parts: seq<string>, i: nat, p: nat)
    requires i <= p < |parts| && ParseGroup(parts[p]).None?
    ensures ParseGroupsFrom(parts, i) == None
    decreases p - i
  {
    if i < p {
      ParseGroupsNone(parts, i + 1, p);
    }
  }

  // ---------------------------------------------------------------- documented examples

  // The lemmas named Hex*, Spelled*, Written* and GroupsPairText below are
  // scaffolding, not properties of the model: each evaluates one literal
  // (a numeral, a join, a concatenation) so that the example proofs that use
  // them stay small.

  // Group values in hexadecimal, as Integer.toHexString writes them.

  lemma Hex2001(g: Hextet) requires g == 0x2001 ensures Hex(g) == "2001"
  {
    assert Hex(0x2) == "2";
    assert Hex(0x20) == "20";
    assert Hex(0x200) == "200";
  }

  lemma Hex1db8(g: Hextet) requires g == 0x1db8 ensures Hex(g) == "1db8"
  {
    assert Hex(0x1) == "1";
    assert Hex(0x1d) == "1d";
    assert Hex(0x1db) == "1db";
  }

  lemma HexDb8(g: Hextet) requires g == 0xdb8 ensures Hex(g) == "db8"
  {
    assert Hex(0xd) == "d";
    assert Hex(0xdb) == "db";
  }

  lemma HexFf00(g: Hextet) requires g == 0xff00 ensures Hex(g) == "ff00"
  {
    assert Hex(0xf) == "f";
    assert Hex(0xff) == "ff";
    assert Hex(0xff0) == "ff0";
  }

  lemma Hex8329(g: Hextet) requires g == 0x8329 ensures Hex(g) == "8329"
  {
    assert Hex(0x8) == "8";
    assert Hex(0x83) == "83";
    assert Hex(0x832) == "832";
  }

  lemma Hex85a3(g: Hextet) requires g == 0x85a3 ensures Hex(g) == "85a3"
  {
    assert Hex(0x8) == "8";
    assert Hex(0x85) == "85";
    assert Hex(0x85a) == "85a";
  }

  lemma Hex8a2e(g: Hextet) requires g == 0x8a2e ensures Hex(g) == "8a2e"
  {
    assert Hex(0x8) == "8";
    assert Hex(0x8a) == "8a";
    assert Hex(0x8a2) == "8a2";
  }

  lemma Hex7334(g: Hextet) requires g == 0x7334 ensures Hex(g) == "7334"
  {
    assert Hex(0x7) == "7";
    assert Hex(0x73) == "73";
    assert Hex(0x733) == "733";
  }

  lemma HexSmall(g: Hextet)
    ensures g == 0x10 ==> Hex(g) == "10"
    ensures g == 0x11 ==> Hex(g) == "11"
    ensures g == 0x12 ==> Hex(g) == "12"
    ensures g == 0x42 ==> Hex(g) == "42"
    ensures g == 0x370 ==> Hex(g) == "370"
  {
    assert Hex(0x1) == "1";
    assert Hex(0x4) == "4";
    assert Hex(0x3) == "3";
    assert Hex(0x37) == "37";
  }

  /** Two consecutive groups, written. */
  lemma GroupsPairText(h: seq<Hextet>, i: nat, x: string, y: string)
    requires i + 2 <= |h| && Hex(h[i]) == x && Hex(h[i + 1]) == y
    ensures Groups(h, i, i + 2) == x + ":" + y
  {
  }

  // "2001:01db8:00:0:00:ff00:42:8329": a five-digit group with a leading zero,
  // and three zero groups spelled "00", "0" and "00".

  lemma SpelledGroupsA1()
    ensures ParseGroup("2001") == Some(0x2001)
  {
    HexFromAll("2001", 0);
  }

  lemma SpelledGroupsA2()
    ensures ParseGroup("01db8") == Some(0x1db8)
  {
    HexFromAll("01db8", 0);
  }

  lemma SpelledGroupsA3()
    ensures ParseGroup("00") == Some(0) && ParseGroup("0") == Some(0)
  {
    HexFromAll("00", 0);
    HexFromAll("0", 0);
  }

  lemma SpelledGroupsA4()
    ensures ParseGroup("ff00") == Some(0xff00) && ParseGroup("42") == Some(0x42)
  {
    HexFromAll("ff00", 0);
    HexFromAll("42", 0);
  }

  lemma SpelledGroupsA5()
    ensures ParseGroup("8329") == Some(0x8329)
  {
    HexFromAll("8329", 0);
  }

  lemma SpelledTextA1() ensures Join(["2001", "01db8", "00", "0"], ':') == "2001:01db8:00:0" {}

  lemma SpelledTextA2() ensures Join(["00", "ff00", "42", "8329"], ':') == "00:ff00:42:8329" {}

  lemma SpelledTextA3() ensures "2001:01db8:00:0" + [':'] + "00:ff00:42:8329" == "2001:01db8:00:0:00:ff00:42:8329" {}

  /** The groups of "2001:01db8:00:0:00:ff00:42:8329". */
  lemma ReadExampleA(s: string, h: seq<Hextet>)
    requires s == "2001:01db8:00:0:00:ff00:42:8329"
    requires |h| == 8 && h[0] == 0x2001 && h[1] == 0x1db8 && h[2] == 0 && h[3] == 0 && h[4] == 0
      && h[5] == 0xff00 && h[6] == 0x42 && h[7] == 0x8329
    ensures TextToIpv6(s) == Some(Octets(h))
    ensures Ipv6Text(Octets(h)) == CompressedText(h)
  {
    var a, b := ["2001", "01db8", "00", "0"], ["00", "ff00", "42", "8329"];
    assert SpellsGroups(a, h, 0) && SpellsGroups(b, h, 4) by {
      SpelledGroupsA1();
      SpelledGroupsA2();
      SpelledGroupsA3();
      SpelledGroupsA4();
      SpelledGroupsA5();
    }
    assert Join(a + b, ':') == s by {
      SpelledTextA1();
      SpelledTextA2();
      SpelledTextA3();
      JoinAppend(a, b, ':');
    }
    ReadFourAndFour(s, a, b, h);
  }

  /** The three zero groups of example A are the run to compress. */
  lemma RunExampleA(h: seq<Hextet>)
    requires |h| == 8 && h[0] == 0x2001 && h[1] == 0x1db8 && h[2] == 0 && h[3] == 0 && h[4] == 0
      && h[5] == 0xff00 && h[6] == 0x42 && h[7] == 0x8329
    ensures LongestZeroRun(h) == (2, 3)
  {
    assert LeftmostLongest(h, 2, 3) by {
      forall t: nat, m: nat | ZeroRun(h, t, m)
        ensures m <= 3
      {
        assert h[1] != 0 && h[5] != 0;
      }
      forall t: nat | t < 2
        ensures !ZeroRun(h, t, 3)
      {
        assert h[t] != 0;
      }
    }
    var r := LongestZeroRun(h);
    LeftmostLongestUnique(h, r.0, r.1, 2, 3);
  }

  lemma WriteExampleALeft(h: seq<Hextet>)
    requires |h| == 8 && h[0] == 0x2001 && h[1] == 0x1db8
    ensures Groups(h, 0, 2) == "2001:1db8"
  {
    Hex2001(h[0]);
    Hex1db8(h[1]);
    GroupsPairText(h, 0, "2001", "1db8");
  }

  lemma WriteExampleARight(h: seq<Hextet>)
    requires |h| == 8 && h[5] == 0xff00 && h[6] == 0x42 && h[7] == 0x8329
    ensures Groups(h, 5, 8) == "ff00:42:8329"
  {
    HexFf00(h[5]);
    HexSmall(h[6]);
    Hex8329(h[7]);
    GroupsPairText(h, 6, "42", "8329");
  }

  /** Example A is written "2001:1db8::ff00:42:8329": the run of three zero
      groups becomes "::" and the leading zero of the second group is dropped. */
  lemma WriteExampleA(h: seq<Hextet>)
    requires |h| == 8 && h[0] == 0x2001 && h[1] == 0x1db8 && h[2] == 0 && h[3] == 0 && h[4] == 0
      && h[5] == 0xff00 && h[6] == 0x42 && h[7] == 0x8329
    ensures CompressedText(h) == "2001:1db8::ff00:42:8329"
  {
    RunExampleA(h);
    WriteExampleALeft(h);
    WriteExampleARight(h);
    CompressedAround(h, 2, 3, "2001:1db8", "ff00:42:8329");
    WrittenTextA();
  }

  lemma WrittenTextA() ensures "2001:1db8" + "::" + "ff00:42:8329" == "2001:1db8::ff00:42:8329" {}

  // "2001:db8:10:11:12:ff00:42:8329": no zero group at all.

  lemma WriteExampleB1(h: seq<Hextet>)
    requires |h| == 8 && h[0] == 0x2001 && h[1] == 0xdb8 && h[2] == 0x10 && h[3] == 0x11
    ensures Groups(h, 0, 4) == "2001:db8:10:11"
  {
    Hex2001(h[0]);
    HexDb8(h[1]);
    HexSmall(h[2]);
    HexSmall(h[3]);
    GroupsPairText(h, 0, "2001", "db8");
    GroupsPairText(h, 2, "10", "11");
    GroupsSplit(h, 0, 2, 4);
  }

  lemma WriteExampleB2(h: seq<Hextet>)
    requires |h| == 8 && h[4] == 0x12 && h[5] == 0xff00 && h[6] == 0x42 && h[7] == 0x8329
    ensures Groups(h, 4, 8) == "12:ff00:42:8329"
  {
    HexSmall(h[4]);
    HexFf00(h[5]);
    HexSmall(h[6]);
    Hex8329(h[7]);
    GroupsPairText(h, 4, "12", "ff00");
    GroupsPairText(h, 6, "42", "8329");
    GroupsSplit(h, 4, 6, 8);
  }

  lemma WriteExampleB(h: seq<Hextet>)
    requires |h| == 8 && h[0] == 0x2001 && h[1] == 0xdb8 && h[2] == 0x10 && h[3] == 0x11 && h[4] == 0x12
      && h[5] == 0xff00 && h[6] == 0x42 && h[7] == 0x8329
    ensures Groups(h, 0, 8) == "2001:db8:10:11:12:ff00:42:8329"
  {
    WriteExampleB1(h);
    WriteExampleB2(h);
    GroupsJoined(h, 0, 4, 8, "2001:db8:10:11", "12:ff00:42:8329");
    WrittenTextB();
  }

  lemma WrittenTextB() ensures "2001:db8:10:11" + ":" + "12:ff00:42:8329" == "2001:db8:10:11:12:ff00:42:8329" {}

  /** Example B has no two adjacent zero groups, so all eight groups are written. */
  lemma TextExampleB(h: seq<Hextet>)
    requires |h| == 8 && h[0] == 0x2001 && h[1] == 0xdb8 && h[2] == 0x10 && h[3] == 0x11 && h[4] == 0x12
      && h[5] == 0xff00 && h[6] == 0x42 && h[7] == 0x8329
    ensures CompressedText(h) == "2001:db8:10:11:12:ff00:42:8329"
  {
    WriteExampleB(h);
    NoZeroPairKeepsAllGroups(h);
  }

  /** Without zero groups all eight groups are written, and the text reads back as them. */
  lemma ExampleB(s: string, h: seq<Hextet>)
    requires |h| == 8 && h[0] == 0x2001 && h[1] == 0xdb8 && h[2] == 0x10 && h[3] == 0x11 && h[4] == 0x12
      && h[5] == 0xff00 && h[6] == 0x42 && h[7] == 0x8329
    requires s == "2001:db8:10:11:12:ff00:42:8329"
    ensures TextToIpv6(s) == Some(Octets(h))
    ensures Ipv6Text(Octets(h)) == s
  {
    assert TextToHextets(s) == Some(h) by {
      WriteExampleB(h);
      AllGroupsRoundTrip(h);
    }
    assert CompressedText(h) == s by { TextExampleB(h); }
    HextetsOfOctets(h);
  }

  // "2001:0db8:85a3:0000:0000:8a2e:0370:7334": leading zeros in four groups,
  // and a run of two zero groups.

  lemma SpelledGroupsC1()
    ensures ParseGroup("0db8") == Some(0xdb8) && ParseGroup("85a3") == Some(0x85a3)
  {
    HexFromAll("0db8", 0);
    HexFromAll("85a3", 0);
  }

  lemma SpelledGroupsC2()
    ensures ParseGroup("0000") == Some(0) && ParseGroup("8a2e") == Some(0x8a2e)
  {
    HexFromAll("0000", 0);
    HexFromAll("8a2e", 0);
  }

  lemma SpelledGroupsC3()
    ensures ParseGroup("0370") == Some(0x370) && ParseGroup("7334") == Some(0x7334)
  {
    HexFromAll("0370", 0);
    HexFromAll("7334", 0);
  }

  lemma SpelledTextC1() ensures Join(["2001", "0db8", "85a3", "0000"], ':') == "2001:0db8:85a3:0000" {}

  lemma SpelledTextC2() ensures Join(["0000", "8a2e", "0370", "7334"], ':') == "0000:8a2e:0370:7334" {}

  lemma SpelledTextC3()
    ensures "2001:0db8:85a3:0000" + [':'] + "0000:8a2e:0370:7334" == "2001:0db8:85a3:0000:0000:8a2e:0370:7334"
  {
  }

  /** The groups of "2001:0db8:85a3:0000:0000:8a2e:0370:7334". */
  lemma ReadExampleC(s: string, h: seq<Hextet>)
    requires s == "2001:0db8:85a3:0000:0000:8a2e:0370:7334"
    requires |h| == 8 && h[0] == 0x2001 && h[1] == 0xdb8 && h[2] == 0x85a3 && h[3] == 0 && h[4] == 0
      && h[5] == 0x8a2e && h[6] == 0x370 && h[7] == 0x7334
    ensures TextToIpv6(s) == Some(Octets(h))
    ensures Ipv6Text(Octets(h)) == CompressedText(h)
  {
    var a, b := ["2001", "0db8", "85a3", "0000"], ["0000", "8a2e", "0370", "7334"];
    assert SpellsGroups(a, h, 0) && SpellsGroups(b, h, 4) by {
      SpelledGroupsA1();
      SpelledGroupsC1();
      SpelledGroupsC2();
      SpelledGroupsC3();
    }
    assert Join(a + b, ':') == s by {
      SpelledTextC1();
      SpelledTextC2();
      SpelledTextC3();
      JoinAppend(a, b, ':');
    }
    ReadFourAndFour(s, a, b, h);
  }

  /** The two zero groups of example C are the run to compress. */
  lemma RunExampleC(h: seq<Hextet>)
    requires |h| == 8 && h[0] == 0x2001 && h[1] == 0xdb8 && h[2] == 0x85a3 && h[3] == 0 && h[4] == 0
      && h[5] == 0x8a2e && h[6] == 0x370 && h[7] == 0x7334
    ensures LongestZeroRun(h) == (3, 2)
  {
    assert LeftmostLongest(h, 3, 2) by {
      forall t: nat, m: nat | ZeroRun(h, t, m)
        ensures m <= 2
      {
        assert h[0] != 0 && h[1] != 0 && h[2] != 0 && h[5] != 0 && h[6] != 0 && h[7] != 0;
      }
      forall t: nat | t < 3
        ensures !ZeroRun(h, t, 2)
      {
        assert h[t] != 0;
      }
    }
    var r := LongestZeroRun(h);
    LeftmostLongestUnique(h, r.0, r.1, 3, 2);
  }

  lemma WriteExampleCLeft(h: seq<Hextet>)
    requires |h| == 8 && h[0] == 0x2001 && h[1] == 0xdb8 && h[2] == 0x85a3
    ensures Groups(h, 0, 3) == "2001:db8:85a3"
  {
    Hex2001(h[0]);
    HexDb8(h[1]);
    Hex85a3(h[2]);
    GroupsPairText(h, 0, "2001", "db8");
    GroupsSplit(h, 0, 2, 3);
  }

  lemma WriteExampleCRight(h: seq<Hextet>)
    requires |h| == 8 && h[5] == 0x8a2e && h[6] == 0x370 && h[7] == 0x7334
    ensures Groups(h, 5, 8) == "8a2e:370:7334"
  {
    Hex8a2e(h[5]);
    HexSmall(h[6]);
    Hex7334(h[7]);
    GroupsPairText(h, 6, "370", "7334");
    GroupsSplit(h, 5, 6, 8);
  }

  /** Example C is written "2001:db8:85a3::8a2e:370:7334". */
  lemma WriteExampleC(h: seq<Hextet>)
    requires |h| == 8 && h[0] == 0x2001 && h[1] == 0xdb8 && h[2] == 0x85a3 && h[3] == 0 && h[4] == 0
      && h[5] == 0x8a2e && h[6] == 0x370 && h[7] == 0x7334
    ensures CompressedText(h) == "2001:db8:85a3::8a2e:370:7334"
  {
    RunExampleC(h);
    WriteExampleCLeft(h);
    WriteExampleCRight(h);
    CompressedAround(h, 3, 2, "2001:db8:85a3", "8a2e:370:7334");
    WrittenTextC();
  }

  lemma WrittenTextC() ensures "2001:db8:85a3" + "::" + "8a2e:370:7334" == "2001:db8:85a3::8a2e:370:7334" {}
}
