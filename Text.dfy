/** Character-level helpers with the semantics of the Java string operations
    the utilities rely on: trimming, ASCII lower-casing, splitting and joining
    on a separator, and decimal and hexadecimal numerals. */
module Text {
  import opened Wrappers

  // ---------------------------------------------------------------- trimming

  /** Java's String.trim removes every character at or below U+0020. */
  predicate IsTrimmed(c: char) { c <= ' ' }

  /** Position of the first non-blank character at or after i, or |s|. */
  function FirstNonBlank(s: string, i: nat): (k: nat)
    requires i <= |s|
    ensures i <= k <= |s|
    ensures forall j :: i <= j < k ==> IsTrimmed(s[j])
    ensures k < |s| ==> !IsTrimmed(s[k])
    decreases |s| - i
  {
    if i == |s| || !IsTrimmed(s[i]) then i else FirstNonBlank(s, i + 1)
  }

  /** End of s[..k] once its trailing blanks are dropped, never below lo. */
  function LastNonBlankEnd(s: string, lo: nat, k: nat): (e: nat)
    requires lo <= k <= |s|
    ensures lo <= e <= k
    ensures forall j :: e <= j < k ==> IsTrimmed(s[j])
    ensures e > lo ==> !IsTrimmed(s[e - 1])
  {
    if k == lo || !IsTrimmed(s[k - 1]) then k else LastNonBlankEnd(s, lo, k - 1)
  }

  /** String.trim: s without its leading and trailing blanks. */
  function Trim(s: string): (r: string)
    ensures |r| <= |s|
    ensures r == [] || (!IsTrimmed(r[0]) && !IsTrimmed(r[|r| - 1]))
  {
    var b := FirstNonBlank(s, 0);
    s[b..LastNonBlankEnd(s, b, |s|)]
  }

  /** Trimming removes nothing from a string whose ends are not blank. */
  lemma TrimKeepsTrimmed(s: string)
    requires s == [] || (!IsTrimmed(s[0]) && !IsTrimmed(s[|s| - 1]))
    ensures Trim(s) == s
  {
    if s != [] {
      assert FirstNonBlank(s, 0) == 0;
      assert LastNonBlankEnd(s, 0, |s|) == |s|;
    }
  }

  /** Blanks around a string whose ends are not blank are exactly what trimming removes. */
  lemma TrimPadded(a: string, x: string, b: string)
    requires forall i :: 0 <= i < |a| ==> IsTrimmed(a[i])
    requires forall i :: 0 <= i < |b| ==> IsTrimmed(b[i])
    requires x != [] && !IsTrimmed(x[0]) && !IsTrimmed(x[|x| - 1])
    ensures Trim(a + x + b) == x
  {
    var s := a + x + b;
    assert s[|a|] == x[0];
    assert FirstNonBlank(s, 0) == |a|;
    assert s[|a| + |x| - 1] == x[|x| - 1];
    assert LastNonBlankEnd(s, |a|, |s|) == |a| + |x|;
    assert s[|a|..|a| + |x|] == x;
  }

  /** A text made only of blanks, the empty one included, trims to nothing. */
  lemma TrimAllBlank(s: string)
    requires forall i :: 0 <= i < |s| ==> IsTrimmed(s[i])
    ensures Trim(s) == []
  {
    assert FirstNonBlank(s, 0) == |s|;
  }

  /** Trimming keeps every non-blank character, and a non-blank last
      character stays last. */
  lemma TrimKeeps(s: string, i: nat)
    requires i < |s| && !IsTrimmed(s[i])
    ensures s[i] in Trim(s)
    ensures !IsTrimmed(s[|s| - 1]) ==> Trim(s) != [] && Trim(s)[|Trim(s)| - 1] == s[|s| - 1]
  {
    var b := FirstNonBlank(s, 0);
    var e := LastNonBlankEnd(s, b, |s|);
    assert b <= i < e;
    assert Trim(s)[i - b] == s[i];
  }

  // ---------------------------------------------------------------- case

  function LowerChar(c: char): (d: char)
    ensures 'A' <= c <= 'Z' ==> 'a' <= d <= 'z'
    ensures !('A' <= d <= 'Z')
  {
    if 'A' <= c <= 'Z' then (c as int - 'A' as int + 'a' as int) as char else c
  }

  /** ASCII lower-casing: only 'A'..'Z' change. */
  function Lower(s: string): (r: string)
    ensures |r| == |s|
    ensures forall i :: 0 <= i < |s| ==> r[i] == LowerChar(s[i])
  {
    if |s| == 0 then [] else [LowerChar(s[0])] + Lower(s[1..])
  }

  predicate HasNoUpper(s: string) { forall i :: 0 <= i < |s| ==> !('A' <= s[i] <= 'Z') }

  /** Lower-casing leaves text without upper-case letters as it is, and so is
      idempotent. */
  lemma LowerKeeps(s: string)
    requires HasNoUpper(s)
    ensures Lower(s) == s
  {
    assert forall i :: 0 <= i < |s| ==> Lower(s)[i] == s[i];
  }

  // ---------------------------------------------------------------- split / join

  /** Splitting at every occurrence of a single character, keeping every token
      (including empty ones): n separators give n + 1 tokens. Unlike Java's
      String.split, trailing empty tokens are kept. */
  function Split(s: string, sep: char): (parts: seq<string>)
    ensures |parts| >= 1
  {
    if |s| == 0 then [""]
    else
      var rest := Split(s[1..], sep);
      if s[0] == sep then [""] + rest
      else [[s[0]] + rest[0]] + rest[1..]
  }

  /** No part holds the separator, and joining the parts gives the text back. */
  lemma {:induction false} SplitParts(s: string, sep: char)
    ensures forall p :: p in Split(s, sep) ==> sep !in p
    ensures Join(Split(s, sep), sep) == s
  {
    if |s| > 0 {
      SplitParts(s[1..], sep);
      var rest := Split(s[1..], sep);
      if s[0] == sep {
        assert ([""] + rest)[1..] == rest;
      } else {
        var first := [s[0]] + rest[0];
        var parts := [first] + rest[1..];
        assert rest[0] in rest;
        forall p | p in parts
          ensures sep !in p
        {
          if p != first {
            assert p in rest;
          }
        }
        if |rest| == 1 {
          assert Join(rest, sep) == rest[0];
        } else {
          assert parts[1..] == rest[1..];
          assert Join(rest, sep) == rest[0] + [sep] + Join(rest[1..], sep);
        }
        assert [s[0]] + s[1..] == s;
      }
    }
  }

  /** The parts, separated by sep. */
  function Join(parts: seq<string>, sep: char): string
    requires |parts| >= 1
  {
    if |parts| == 1 then parts[0] else parts[0] + [sep] + Join(parts[1..], sep)
  }

  /** Splitting a joined list recovers the parts when no part holds the separator. */
  lemma {:induction false} SplitJoin(parts: seq<string>, sep: char)
    requires |parts| >= 1
    requires forall p :: p in parts ==> sep !in p
    ensures Split(Join(parts, sep), sep) == parts
  {
    if |parts| == 1 {
      SplitWithout(parts[0], sep);
    } else {
      SplitJoin(parts[1..], sep);
      SplitPrefix(parts[0], Join(parts[1..], sep), sep);
    }
  }

  lemma {:induction false} SplitWithout(s: string, sep: char)
    requires sep !in s
    ensures Split(s, sep) == [s]
  {
    if |s| > 0 {
      SplitWithout(s[1..], sep);
      assert [s[0]] + s[1..] == s;
    }
  }

  lemma {:induction false} SplitPrefix(a: string, b: string, sep: char)
    requires sep !in a
    ensures Split(a + [sep] + b, sep) == [a] + Split(b, sep)
  {
    if |a| == 0 {
      assert a + [sep] + b == [sep] + b;
      assert ([sep] + b)[1..] == b;
    } else {
      assert (a + [sep] + b)[1..] == a[1..] + [sep] + b;
      SplitPrefix(a[1..], b, sep);
      assert [a[0]] + a[1..] == a;
    }
  }

  /** The part of a joined list that a non-separator character comes from. */
  lemma {:induction false} JoinedCharPart(parts: seq<string>, sep: char, i: nat) returns (p: nat)
    requires |parts| >= 1 && i < |Join(parts, sep)| && Join(parts, sep)[i] != sep
    ensures p < |parts| && Join(parts, sep)[i] in parts[p]
  {
    var x := parts[0];
    if |parts| == 1 {
      assert Join(parts, sep)[i] in x;
      p := 0;
    } else {
      var rest := Join(parts[1..], sep);
      assert Join(parts, sep) == x + [sep] + rest;
      if i < |x| {
        assert Join(parts, sep)[i] == x[i];
        p := 0;
      } else {
        assert Join(parts, sep)[i] == rest[i - |x| - 1];
        var p' := JoinedCharPart(parts[1..], sep, i - |x| - 1);
        p := p' + 1;
      }
    }
  }

  /** A joined list ends as its last part does, when that part is not empty. */
  lemma {:induction false} JoinLast(parts: seq<string>, sep: char)
    requires |parts| >= 1 && parts[|parts| - 1] != ""
    ensures var t := Join(parts, sep); |t| > 0 && t[|t| - 1] == parts[|parts| - 1][|parts[|parts| - 1]| - 1]
  {
    if |parts| > 1 {
      JoinLast(parts[1..], sep);
    }
  }

  /** Joining two lists is joining each and putting a separator between them. */
  lemma {:induction false} JoinAppend(a: seq<string>, b: seq<string>, sep: char)
    requires |a| >= 1 && |b| >= 1
    ensures Join(a + b, sep) == Join(a, sep) + [sep] + Join(b, sep)
  {
    if |a| > 1 {
      assert (a + b)[1..] == a[1..] + b;
      JoinAppend(a[1..], b, sep);
    } else {
      assert (a + b)[1..] == b;
    }
  }

  predicate NoDoubleSep(t: string, sep: char)
  {
    forall j :: 0 <= j < |t| - 1 ==> t[j] != sep || t[j + 1] != sep
  }

  /** Between two separators of a joined list of non-empty parts there is
      always a character of a part. */
  lemma {:induction false} JoinNoDoubleSep(parts: seq<string>, sep: char)
    requires |parts| >= 1
    requires forall i :: 0 <= i < |parts| ==> parts[i] != "" && sep !in parts[i]
    ensures NoDoubleSep(Join(parts, sep), sep)
  {
    if |parts| > 1 {
      var x := parts[0];
      var rest := Join(parts[1..], sep);
      JoinNoDoubleSep(parts[1..], sep);
      var t := x + [sep] + rest;
      forall j | 0 <= j < |t| - 1
        ensures t[j] != sep || t[j + 1] != sep
      {
        if j < |x| {
          assert t[j] == x[j] && x[j] in x;
        } else if j == |x| {
          assert parts[1..][0] == parts[1];
          assert t[j + 1] == rest[0];
          assert rest[0] == parts[1][0] by {
            JoinHead(parts[1..], sep);
          }
        } else {
          var k := j - |x| - 1;
          assert t[j] == rest[k] && t[j + 1] == rest[k + 1];
          assert rest[k] != sep || rest[k + 1] != sep;
        }
      }
    } else {
      assert sep !in parts[0];
    }
  }

  /** A joined list starts as its first part does, when that part is not empty. */
  lemma JoinHead(parts: seq<string>, sep: char)
    requires |parts| >= 1 && parts[0] != ""
    ensures |Join(parts, sep)| > 0 && Join(parts, sep)[0] == parts[0][0]
  {
  }

  // ---------------------------------------------------------------- decimal

  predicate IsDigit(c: char) { '0' <= c <= '9' }

  predicate AllDigits(s: string) { forall i :: 0 <= i < |s| ==> IsDigit(s[i]) }

  /** The value of a string of decimal digits, most significant first. */
  function DigitsValue(s: string): (n: nat)
    requires AllDigits(s)
  {
    DigitsPrefix(s, |s|)
  }

  /** The value of the first k digits of s. */
  function DigitsPrefix(s: string, k: nat): (n: nat)
    requires AllDigits(s) && k <= |s|
  {
    if k == 0 then 0 else 10 * DigitsPrefix(s, k - 1) + (s[k - 1] as int - '0' as int)
  }

  lemma {:induction false} DigitsPrefixSame(s: string, t: string, k: nat)
    requires AllDigits(s) && AllDigits(t) && k <= |s| && k <= |t| && s[..k] == t[..k]
    ensures DigitsPrefix(s, k) == DigitsPrefix(t, k)
  {
    if k > 0 {
      assert s[..k - 1] == t[..k - 1] && s[k - 1] == t[k - 1] by {
        assert s[..k - 1] == s[..k][..k - 1] && t[..k - 1] == t[..k][..k - 1];
        assert s[k - 1] == s[..k][k - 1] && t[k - 1] == t[..k][k - 1];
      }
      DigitsPrefixSame(s, t, k - 1);
    }
  }

  /** The last digit is the units digit. */
  lemma DigitsValueLast(s: string)
    requires AllDigits(s) && |s| > 0
    ensures DigitsValue(s) == 10 * DigitsValue(s[..|s| - 1]) + (s[|s| - 1] as int - '0' as int)
  {
    var init := s[..|s| - 1];
    assert init[..|s| - 1] == s[..|s| - 1];
    DigitsPrefixSame(s, init, |s| - 1);
  }

  /** A decimal numeral without superfluous leading zeros. */
  predicate CanonicalDigits(s: string) { |s| > 0 && AllDigits(s) && (s[0] == '0' ==> |s| == 1) }

  function DigitChar(d: nat): (c: char)
    requires d < 10
    ensures IsDigit(c) && c as int - '0' as int == d
  {
    ('0' as int + d) as char
  }

  /** Decimal numeral of a natural number, as Integer.toString prints it. */
  function Decimal(n: nat): (s: string)
    ensures |s| > 0
  {
    if n < 10 then [DigitChar(n)] else Decimal(n / 10) + [DigitChar(n % 10)]
  }

  /** The numeral of n is canonical and denotes n. */
  lemma {:induction false} DecimalDenotes(n: nat)
    ensures CanonicalDigits(Decimal(n))
    ensures DigitsValue(Decimal(n)) == n
  {
    var s := Decimal(n);
    if n >= 10 {
      DecimalDenotes(n / 10);
      assert s[..|s| - 1] == Decimal(n / 10);
    }
    DigitsValueLast(s);
  }

  /** Canonical numerals and natural numbers are in one-to-one correspondence. */
  lemma {:induction false} DecimalOfValue(s: string)
    requires CanonicalDigits(s)
    ensures Decimal(DigitsValue(s)) == s
  {
    var n := DigitsValue(s);
    if |s| == 1 {
      DigitsValueLast(s);
    } else {
      DecimalDenotes(n);
      var init := s[..|s| - 1];
      assert CanonicalDigits(init);
      DecimalOfValue(init);
      LeadingDigitPositive(init);
      DigitsValueLast(s);
      assert n / 10 == DigitsValue(init) && n % 10 == s[|s| - 1] as int - '0' as int;
      assert s == init + [s[|s| - 1]];
    }
  }

  lemma {:induction false} LeadingDigitPositive(s: string)
    requires CanonicalDigits(s) && s[0] != '0'
    ensures DigitsValue(s) > 0
  {
    if |s| > 1 {
      var init := s[..|s| - 1];
      assert init[0] == s[0];
      LeadingDigitPositive(init);
      DigitsValueLast(s);
    }
  }

  /** Integer.toString: a minus sign followed by the magnitude for negative values. */
  function IntToString(n: int): (s: string)
    ensures |s| > 0
    ensures s[0] == '-' <==> n < 0
    ensures forall i :: 0 < i < |s| ==> IsDigit(s[i])
    ensures IsDigit(s[0]) || s[0] == '-'
  {
    var m: nat := if n < 0 then -n else n;
    DecimalDenotes(m);
    if n < 0 then "-" + Decimal(m) else Decimal(m)
  }

  const IntMin: int := -0x8000_0000
  const IntMax: int := 0x7fff_ffff

  /** Integer.parseInt in radix 10: an optional sign followed by at least one
      digit, with a value that fits 32 bits; None stands for NumberFormatException. */
  function ParseInt(s: string): (r: Option<int>)
    ensures r.Some? ==> IntMin <= r.value <= IntMax
    ensures r.Some? ==> |s| > 0
    ensures r.Some? ==> forall i :: 0 <= i < |s| ==>
      IsDigit(s[i]) || (i == 0 && |s| > 1 && (s[i] == '-' || s[i] == '+'))
  {
    if |s| == 0 then None
    else
      var neg := s[0] == '-';
      var body := if s[0] == '-' || s[0] == '+' then s[1..] else s;
      if |body| == 0 || !AllDigits(body) then None
      else
        var m: int := DigitsValue(body);
        var v := if neg then -m else m;
        if IntMin <= v <= IntMax then Some(v) else None
  }

  /** Integer.parseInt refuses a text holding a character that is neither a
      digit nor a sign, a sign anywhere but in front, and a sign alone. */
  lemma IntRefused(s: string, i: nat)
    requires i < |s| && !IsDigit(s[i])
    requires (s[i] != '-' && s[i] != '+') || i > 0 || |s| == 1
    ensures ParseInt(s).None?
  {
  }

  /** Integer.parseInt reads back what Integer.toString prints. */
  lemma ParseIntToString(n: int)
    requires IntMin <= n <= IntMax
    ensures ParseInt(IntToString(n)) == Some(n)
  {
    var s := IntToString(n);
    var m: nat := if n < 0 then -n else n;
    DecimalDenotes(m);
    if n < 0 {
      assert s[1..] == Decimal(m);
    }
  }

  // ---------------------------------------------------------------- hexadecimal

  /** Value of a hexadecimal digit in either case, as Character.digit(c, 16). */
  function HexDigitValue(c: char): (v: Option<nat>)
    ensures v.Some? ==> v.value < 16
  {
    if '0' <= c <= '9' then Some(c as int - '0' as int)
    else if 'a' <= c <= 'f' then Some(c as int - 'a' as int + 10)
    else if 'A' <= c <= 'F' then Some(c as int - 'A' as int + 10)
    else None
  }

  predicate AllHex(s: string) { forall i :: 0 <= i < |s| ==> HexDigitValue(s[i]).Some? }

  /** Whether s[i..] holds only hexadecimal digits, one character at a time. */
  predicate HexFrom(s: string, i: nat)
    requires i <= |s|
    decreases |s| - i
  {
    i == |s| || (HexDigitValue(s[i]).Some? && HexFrom(s, i + 1))
  }

  lemma {:induction false} HexFromAll(s: string, i: nat)
    requires i <= |s|
    ensures HexFrom(s, i) <==> forall j :: i <= j < |s| ==> HexDigitValue(s[j]).Some?
    decreases |s| - i
  {
    if i < |s| {
      HexFromAll(s, i + 1);
    }
  }

  /** The value of a string of hexadecimal digits, most significant first. */
  function HexValue(s: string): (n: nat)
    requires AllHex(s)
  {
    HexPrefix(s, |s|)
  }

  /** The value of the first k hexadecimal digits of s. */
  function HexPrefix(s: string, k: nat): (n: nat)
    requires AllHex(s) && k <= |s|
  {
    if k == 0 then 0 else 16 * HexPrefix(s, k - 1) + HexDigitValue(s[k - 1]).value
  }

  lemma {:induction false} HexPrefixSame(s: string, t: string, k: nat)
    requires AllHex(s) && AllHex(t) && k <= |s| && k <= |t| && s[..k] == t[..k]
    ensures HexPrefix(s, k) == HexPrefix(t, k)
  {
    if k > 0 {
      assert s[..k - 1] == t[..k - 1] && s[k - 1] == t[k - 1] by {
        assert s[..k - 1] == s[..k][..k - 1] && t[..k - 1] == t[..k][..k - 1];
        assert s[k - 1] == s[..k][k - 1] && t[k - 1] == t[..k][k - 1];
      }
      HexPrefixSame(s, t, k - 1);
    }
  }

  /** The last hexadecimal digit is the least significant one. */
  lemma HexValueLast(s: string)
    requires AllHex(s) && |s| > 0
    ensures HexValue(s) == 16 * HexValue(s[..|s| - 1]) + HexDigitValue(s[|s| - 1]).value
  {
    var init := s[..|s| - 1];
    assert init[..|s| - 1] == s[..|s| - 1];
    HexPrefixSame(s, init, |s| - 1);
  }

  /** A character Integer.toHexString may print. */
  predicate IsLowerHex(c: char) { '0' <= c <= '9' || 'a' <= c <= 'f' }

  /** A hexadecimal numeral as RFC 5952 wants a group: lower case (section 4.3)
      and without leading zeros (section 4.1). */
  predicate CanonicalHex(s: string)
  {
    |s| > 0 && (forall i :: 0 <= i < |s| ==> IsLowerHex(s[i])) && (s[0] == '0' ==> |s| == 1)
  }

  function HexDigit(d: nat): (c: char)
    requires d < 16
    ensures IsLowerHex(c)
    ensures HexDigitValue(c) == Some(d)
  {
    if d < 10 then ('0' as int + d) as char else ('a' as int + d - 10) as char
  }

  /** Lower-case hexadecimal numeral without leading zeros, as Integer.toHexString. */
  function Hex(n: nat): (s: string)
    ensures |s| > 0
  {
    if n < 16 then [HexDigit(n)] else Hex(n / 16) + [HexDigit(n % 16)]
  }

  /** The numeral of n is canonical and denotes n. */
  lemma {:induction false} HexDenotes(n: nat)
    ensures CanonicalHex(Hex(n)) && AllHex(Hex(n))
    ensures HexValue(Hex(n)) == n
  {
    var s := Hex(n);
    if n >= 16 {
      HexDenotes(n / 16);
      assert s[..|s| - 1] == Hex(n / 16);
    }
    HexValueLast(s);
  }
}
