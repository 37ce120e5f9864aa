/** IPv4 addresses as four octets: reading an address literal the way the
    Java platform does (one to four dot-separated decimal parts, the last
    one filling the remaining octets) and writing the dotted-quad form. */
module Ipv4 {
  import opened Wrappers
  import opened Text
  import opened Bytes

  // ---------------------------------------------------------------- reading

  /** A part of a literal: at least one decimal digit. */
  predicate Numeral(p: string) { |p| > 0 && AllDigits(p) }

  predicate AllNumerals(parts: seq<string>)
  {
    forall i :: 0 <= i < |parts| ==> Numeral(parts[i])
  }

  /** Every part but the last denotes a single octet. */
  predicate LeadingOctets(parts: seq<string>)
    requires AllNumerals(parts)
  {
    forall i :: 0 <= i < |parts| - 1 ==> DigitsValue(parts[i]) < 0x100
  }

  /** The four octets of an address literal, or None when the text is not one:
      it must be 1 to 15 characters long and consist of one to four
      non-empty decimal parts separated by dots; each part but the last is an
      octet and the last fills the remaining octets, big-endian, so "127.1"
      is 127.0.0.1 and "3232235521" is 192.168.0.1. */
  function TextToIpv4(s: string): (r: Option<seq<Byte>>)
    ensures r.Some? ==> |r.value| == 4
  {
    var parts := Split(s, '.');
    var n := |parts|;
    if |s| == 0 || |s| > 15 || n > 4 || !AllNumerals(parts) || !LeadingOctets(parts) then None
    else
      var last := DigitsValue(parts[n - 1]);
      if last >= Pow256(5 - n) then None
      else Some(seq(n - 1, i requires 0 <= i < n - 1 => DigitsValue(parts[i]) as Byte) + BigEndian(last, 5 - n))
  }

  // ---------------------------------------------------------------- writing

  /** The dotted-quad form: the four octets in decimal, separated by dots. */
  function DottedQuad(b: seq<Byte>): string
    requires |b| == 4
  {
    Decimal(b[0]) + "." + Decimal(b[1]) + "." + Decimal(b[2]) + "." + Decimal(b[3])
  }

  // ---------------------------------------------------------------- properties

  /** Reading the dotted-quad form of an address gives the address back. */
  lemma Ipv4RoundTrip(b: seq<Byte>)
    requires |b| == 4
    ensures TextToIpv4(DottedQuad(b)) == Some(b)
  {
    var parts := OctetNumerals(b);
    var t := DottedQuad(b);
    forall i | 0 <= i < 4
      ensures Numeral(parts[i]) && DigitsValue(parts[i]) == b[i] && |parts[i]| <= 3
    {
      DecimalDenotes(b[i]);
      DecimalOfOctet(b[i]);
    }
    DottedQuadSplit(b);
    assert |t| <= 15;
    assert BigEndian(b[3], 1) == [b[3]];
    assert seq(3, i requires 0 <= i < 3 => DigitsValue(parts[i]) as Byte) == b[..3];
    assert b[..3] + [b[3]] == b;
  }

  /** The decimal forms of the four octets. */
  function OctetNumerals(b: seq<Byte>): (parts: seq<string>)
    requires |b| == 4
  {
    [Decimal(b[0]), Decimal(b[1]), Decimal(b[2]), Decimal(b[3])]
  }

  /** The dotted-quad form splits at its dots into the four octet numerals. */
  lemma DottedQuadSplit(b: seq<Byte>)
    requires |b| == 4
    ensures Split(DottedQuad(b), '.') == OctetNumerals(b)
  {
    var parts := OctetNumerals(b);
    forall i | 0 <= i < 4
      ensures '.' !in parts[i]
    {
      DecimalDenotes(b[i]);
    }
    assert Join(parts, '.') == DottedQuad(b) by {
      assert parts[2..][1..] == parts[3..] && parts[1..][1..] == parts[2..];
      assert Join(parts[3..], '.') == parts[3];
      assert Join(parts[2..], '.') == parts[2] + "." + parts[3];
      assert Join(parts[1..], '.') == parts[1] + "." + (parts[2] + "." + parts[3]);
    }
    SplitJoin(parts, '.');
  }

  /** The decimal form of an octet has at most three digits. */
  lemma DecimalOfOctet(n: Byte)
    ensures |Decimal(n)| <= 3
  {
    if n >= 10 {
      assert Decimal(n) == Decimal(n / 10) + [DigitChar(n % 10)];
      if n / 10 >= 10 {
        assert Decimal(n / 10) == Decimal(n / 100) + [DigitChar(n / 10 % 10)];
      }
    }
  }

  /** A character other than a digit or a dot rules out a literal. */
  lemma NotIpv4Literal(s: string, i: nat)
    requires i < |s| && s[i] != '.' && !IsDigit(s[i])
    ensures TextToIpv4(s) == None
  {
    var parts := Split(s, '.');
    SplitParts(s, '.');
    var p := JoinedCharPart(parts, '.', i);
    var q :| 0 <= q < |parts[p]| && parts[p][q] == s[i];
    assert !Numeral(parts[p]);
  }

  /** A literal is not empty, holds only digits and dots, and does not end
      with a dot. */
  lemma Ipv4LiteralShape(s: string)
    requires TextToIpv4(s).Some?
    ensures |s| > 0 && s[|s| - 1] != '.'
    ensures forall i :: 0 <= i < |s| ==> IsDigit(s[i]) || s[i] == '.'
  {
    var parts := Split(s, '.');
    SplitParts(s, '.');
    assert Numeral(parts[|parts| - 1]);
    JoinLast(parts, '.');
    var last := parts[|parts| - 1];
    assert last[|last| - 1] != '.' by {
      assert IsDigit(last[|last| - 1]);
    }
    forall i | 0 <= i < |s| && s[i] != '.'
      ensures IsDigit(s[i])
    {
      var p := JoinedCharPart(parts, '.', i);
      var q :| 0 <= q < |parts[p]| && parts[p][q] == s[i];
      assert Numeral(parts[p]);
    }
  }
}
