/** Parsing of port-range specifications such as "50000-50050, 50100-50200,51234":
    a comma-separated list whose elements are a single port or an inclusive
    range lo-hi. The result lists the ports token by token, each range in
    ascending order; overlapping tokens are not merged. */
module PortRange {
  import opened Wrappers
  import opened Text

  /** One comma-separated element of a specification. */
  datatype RangeToken = Single(port: int) | Span(lo: int, hi: int)

  /** The integers lo, lo + 1, ..., hi; nothing when lo > hi. */
  function Ascending(lo: int, hi: int): (r: seq<int>)
    ensures |r| == if lo <= hi then hi - lo + 1 else 0
    ensures forall k :: 0 <= k < |r| ==> r[k] == lo + k
  {
    if lo > hi then [] else seq(hi - lo + 1, k => lo + k)
  }

  /** The ports one token stands for, in the order they are handed out. */
  function TokenPorts(t: RangeToken): seq<int>
  {
    match t
    case Single(p) => [p]
    case Span(lo, hi) => Ascending(lo, hi)
  }

  predicate Covers(t: RangeToken, p: int)
  {
    match t
    case Single(q) => p == q
    case Span(lo, hi) => lo <= p <= hi
  }

  /** The ports of all tokens, left to right. */
  function Expand(ts: seq<RangeToken>): seq<int>
  {
    if |ts| == 0 then [] else TokenPorts(ts[0]) + Expand(ts[1..])
  }

  /** Position of the first occurrence of c at or after position i, or |s|
      when there is none (String.indexOf, with |s| for -1). */
  function IndexFrom(s: string, c: char, i: nat): (k: nat)
    requires i <= |s|
    ensures i <= k <= |s|
    ensures k < |s| ==> s[k] == c
    ensures forall j :: i <= j < k ==> s[j] != c
    decreases |s| - i
  {
    if i == |s| || s[i] == c then i else IndexFrom(s, c, i + 1)
  }

  /** One token, trimmed: without '-' it is a single port; otherwise the first
      '-' separates the two bounds, each trimmed. Every bound is read with
      Integer.parseInt, whose failure is a number-format error. */
  function ParseToken(raw: string): (r: Result<RangeToken>)
    ensures r.Err? ==> r.error == NumberFormat
  {
    ParseTrimmedToken(Trim(raw))
  }

  function ParseTrimmedToken(t: string): (r: Result<RangeToken>)
    ensures r.Err? ==> r.error == NumberFormat
  {
    var d := IndexFrom(t, '-', 0);
    if d == |t| then SingleOf(ParseInt(t))
    else SpanOf(ParseInt(Trim(t[..d])), ParseInt(Trim(t[d + 1..])))
  }

  function SingleOf(p: Option<int>): (r: Result<RangeToken>)
    ensures r.Err? ==> r.error == NumberFormat
  {
    if p.Some? then Ok(Single(p.value)) else Err(NumberFormat)
  }

  function SpanOf(lo: Option<int>, hi: Option<int>): (r: Result<RangeToken>)
    ensures r.Err? ==> r.error == NumberFormat
  {
    if lo.Some? && hi.Some? then Ok(Span(lo.value, hi.value)) else Err(NumberFormat)
  }

  /** All tokens parse, or the specification is refused as a whole. */
  function ParseTokens(raws: seq<string>): (r: Result<seq<RangeToken>>)
    ensures r.Err? ==> r.error == NumberFormat
  {
    if |raws| == 0 then Ok([])
    else
      match ParseToken(raws[0])
      case Err(e) => Err(e)
      case Ok(t) =>
        match ParseTokens(raws[1..])
        case Err(e) => Err(e)
        case Ok(ts) => Ok([t] + ts)
  }

  /** The tokens are read one for one. */
  lemma ParseTokensElements(raws: seq<string>)
    requires ParseTokens(raws).Ok?
    ensures |ParseTokens(raws).value| == |raws|
    ensures forall i :: 0 <= i < |raws| ==> ParseToken(raws[i]) == Ok(ParseTokens(raws).value[i])
  {
    ParseTokensLength(raws);
    forall i | 0 <= i < |raws|
      ensures ParseToken(raws[i]) == Ok(ParseTokens(raws).value[i])
    {
      ParseTokensAt(raws, i);
    }
  }

  lemma {:induction false} ParseTokensLength(raws: seq<string>)
    requires ParseTokens(raws).Ok?
    ensures |ParseTokens(raws).value| == |raws|
  {
    if |raws| > 0 {
      ParseTokensLength(raws[1..]);
    }
  }

  lemma {:induction false} ParseTokensAt(raws: seq<string>, i: nat)
    requires ParseTokens(raws).Ok? && i < |raws|
    ensures i < |ParseTokens(raws).value| && ParseToken(raws[i]) == Ok(ParseTokens(raws).value[i])
  {
    ParseTokensLength(raws);
    if i > 0 {
      ParseTokensAt(raws[1..], i - 1);
      assert raws[1..][i - 1] == raws[i];
    }
  }

  /** A refusal comes from a token that does not parse. */
  lemma {:induction false} ParseTokensRefusal(raws: seq<string>)
    requires ParseTokens(raws).Err?
    ensures exists i :: 0 <= i < |raws| && ParseToken(raws[i]).Err?
  {
    if ParseToken(raws[0]).Ok? {
      ParseTokensRefusal(raws[1..]);
      var i :| 0 <= i < |raws[1..]| && ParseToken(raws[1..][i]).Err?;
      assert ParseToken(raws[i + 1]).Err?;
    }
  }

  /** getPortRangeFromString: the ports of a specification, or a number-format
      error. Every comma-separated element is a token, so an empty element at
      either end is refused like any other empty token. */
  function ParsePortRange(text: string): (r: Result<seq<int>>)
    ensures r.Err? ==> r.error == NumberFormat
  {
    match ParseTokens(Split(text, ','))
    case Ok(ts) => Ok(Expand(ts))
    case Err(e) => Err(e)
  }

  // ---------------------------------------------------------------- properties

  /** A specification is refused exactly when one of its comma-separated
      tokens does not parse, and then always with a number-format error. */
  lemma ParsePortRangeFails(text: string)
    ensures ParsePortRange(text).Err? <==>
      exists i :: 0 <= i < |Split(text, ',')| && ParseToken(Split(text, ',')[i]).Err?
    ensures ParsePortRange(text).Err? ==> ParsePortRange(text).error == NumberFormat
  {
    var raws := Split(text, ',');
    if ParseTokens(raws).Err? {
      ParseTokensRefusal(raws);
    }
    if exists i :: 0 <= i < |raws| && ParseToken(raws[i]).Err? {
      var i :| 0 <= i < |raws| && ParseToken(raws[i]).Err?;
      ParsePortRangeRefused(text, raws, i);
    }
  }

  /** Each range token contributes exactly the integers between its bounds. */
  lemma {:induction false} AscendingMembers(lo: int, hi: int, p: int)
    ensures p in Ascending(lo, hi) <==> lo <= p <= hi
  {
    if lo <= p <= hi {
      assert Ascending(lo, hi)[p - lo] == p;
    }
  }

  /** A port is produced exactly when some token covers it. */
  lemma {:induction false} ExpandMembers(ts: seq<RangeToken>, p: int)
    ensures p in Expand(ts) <==> exists i :: 0 <= i < |ts| && Covers(ts[i], p)
  {
    if |ts| > 0 {
      ExpandMembers(ts[1..], p);
      match ts[0]
      case Single(q) =>
      case Span(lo, hi) => AscendingMembers(lo, hi, p);
      if p in TokenPorts(ts[0]) {
        assert Covers(ts[0], p);
      }
      if exists i :: 0 <= i < |ts| && Covers(ts[i], p) {
        var i :| 0 <= i < |ts| && Covers(ts[i], p);
        if i > 0 {
          assert Covers(ts[1..][i - 1], p);
        }
      }
    }
  }

  /** Tokens are handed out in the order they are written. */
  lemma {:induction false} ExpandAppend(a: seq<RangeToken>, b: seq<RangeToken>)
    ensures Expand(a + b) == Expand(a) + Expand(b)
  {
    if |a| == 0 {
      assert a + b == b;
    } else {
      assert (a + b)[1..] == a[1..] + b;
      ExpandAppend(a[1..], b);
    }
  }

  /** The raw token text parses to a token that names port p. */
  predicate NamesPort(raw: string, p: int)
  {
    ParseToken(raw).Ok? && Covers(ParseToken(raw).value, p)
  }

  /** Every port of a successfully parsed list of tokens comes from one of
      them, and every port any token names is in the result. */
  lemma TokensCover(raws: seq<string>, p: int)
    requires ParseTokens(raws).Ok?
    ensures p in Expand(ParseTokens(raws).value) <==> exists i :: 0 <= i < |raws| && NamesPort(raws[i], p)
  {
    var ts := ParseTokens(raws).value;
    ParseTokensElements(raws);
    ExpandMembers(ts, p);
    if exists i :: 0 <= i < |ts| && Covers(ts[i], p) {
      var i :| 0 <= i < |ts| && Covers(ts[i], p);
      assert NamesPort(raws[i], p);
    }
    if exists i :: 0 <= i < |raws| && NamesPort(raws[i], p) {
      var i :| 0 <= i < |raws| && NamesPort(raws[i], p);
      assert Covers(ts[i], p);
    }
  }

  /** Every port of a successfully parsed specification comes from one of its
      tokens, and every port any token names is in the result. */
  lemma ParsedPortsCovered(text: string, p: int)
    requires ParsePortRange(text).Ok?
    ensures p in ParsePortRange(text).value ==>
      exists i :: 0 <= i < |Split(text, ',')| && NamesPort(Split(text, ',')[i], p)
    ensures (exists i :: 0 <= i < |Split(text, ',')| && NamesPort(Split(text, ',')[i], p)) ==>
      p in ParsePortRange(text).value
  {
    TokensCover(Split(text, ','), p);
  }

  // ---------------------------------------------------------------- refused tokens

  /** A character that is neither blank, a digit nor a sign: no bound can hold it. */
  predicate Stray(c: char) { !IsTrimmed(c) && !IsDigit(c) && c != '+' && c != '-' }

  /** A part of a token holding a stray character does not read as a bound. */
  lemma StrayPartRefused(part: string, j: nat)
    requires j < |part| && Stray(part[j])
    ensures ParseInt(Trim(part)).None?
  {
    TrimKeeps(part, j);
    var u := Trim(part);
    var k :| 0 <= k < |u| && u[k] == part[j];
    IntRefused(u, k);
  }

  /** A trimmed token holding a stray character fails, whichever side of the
      dash the character is on. */
  lemma StrayTrimmedRefused(t: string, j: nat)
    requires j < |t| && Stray(t[j])
    ensures ParseTrimmedToken(t).Err?
  {
    var d := IndexFrom(t, '-', 0);
    if d == |t| {
      IntRefused(t, j);
    } else if j < d {
      assert t[..d][j] == t[j];
      StrayPartRefused(t[..d], j);
    } else {
      assert t[d + 1..][j - d - 1] == t[j];
      StrayPartRefused(t[d + 1..], j - d - 1);
    }
  }

  /** A token holding a stray character anywhere, such as a host name, fails. */
  lemma StrayCharRefused(raw: string, i: nat)
    requires i < |raw| && Stray(raw[i])
    ensures ParseToken(raw).Err?
  {
    TrimKeeps(raw, i);
    var t := Trim(raw);
    var j :| 0 <= j < |t| && t[j] == raw[i];
    StrayTrimmedRefused(t, j);
  }

  /** A trimmed token that starts or ends with '-' lacks a bound and fails. */
  lemma DashAtEndRefused(raw: string)
    requires Trim(raw) != [] && (Trim(raw)[0] == '-' || Trim(raw)[|Trim(raw)| - 1] == '-')
    ensures ParseToken(raw).Err?
  {
    var t := Trim(raw);
    var d := IndexFrom(t, '-', 0);
    if t[0] == '-' {
      TrimAllBlank(t[..d]);
    } else if d + 1 < |t| {
      var upper := t[d + 1..];
      assert upper[|upper| - 1] == '-';
      TrimKeeps(upper, |upper| - 1);
      var u := Trim(upper);
      IntRefused(u, |u| - 1);
    } else {
      TrimAllBlank(t[d + 1..]);
    }
  }

  /** A token of blanks only, the empty one included, fails. */
  lemma BlankTokenRefused(raw: string)
    requires forall i :: 0 <= i < |raw| ==> IsTrimmed(raw[i])
    ensures ParseToken(raw).Err?
  {
    TrimAllBlank(raw);
  }

  // ---------------------------------------------------------------- printing and reading back

  /** The text of a token, as a configuration would spell it. */
  function FormatToken(t: RangeToken): string
  {
    match t
    case Single(p) => IntToString(p)
    case Span(lo, hi) => IntToString(lo) + "-" + IntToString(hi)
  }

  /** Tokens that can be written down: a single port or a lower bound cannot
      be negative, since its minus sign would be read as the range dash; the
      upper bound may be any 32-bit integer. */
  predicate Writable(t: RangeToken)
  {
    match t
    case Single(p) => 0 <= p <= IntMax
    case Span(lo, hi) => 0 <= lo <= IntMax && IntMin <= hi <= IntMax
  }

  /** The specification text of a list of tokens. */
  function FormatSpec(ts: seq<RangeToken>): (s: string)
    requires |ts| >= 1
  {
    Join(FormatTokens(ts), ',')
  }

  function FormatTokens(ts: seq<RangeToken>): (raws: seq<string>)
    ensures |raws| == |ts|
    ensures forall i :: 0 <= i < |ts| ==> raws[i] == FormatToken(ts[i])
  {
    if |ts| == 0 then [] else [FormatToken(ts[0])] + FormatTokens(ts[1..])
  }

  lemma DigitsHaveNo(n: nat, c: char)
    requires !IsDigit(c)
    ensures c !in Decimal(n)
  {
    DecimalDenotes(n);
  }

  /** A token reads the same with or without surrounding blanks. */
  lemma ParseTokenTrimmed(raw: string)
    ensures ParseToken(raw) == ParseToken(Trim(raw))
  {
    TrimKeepsTrimmed(Trim(raw));
  }

  /** The first dash of a written range is the one between its bounds. */
  lemma SpanDash(lo: int, hi: int)
    requires 0 <= lo
    ensures IndexFrom(FormatToken(Span(lo, hi)), '-', 0) == |IntToString(lo)|
  {
    var a := IntToString(lo);
    var text := a + "-" + IntToString(hi);
    DigitsHaveNo(lo, '-');
    assert text[|a|] == '-';
    assert text[..|a|] == a;
  }

  lemma SpanRoundTrip(lo: int, hi: int)
    requires 0 <= lo <= IntMax && IntMin <= hi <= IntMax
    ensures ParseToken(FormatToken(Span(lo, hi))) == Ok(Span(lo, hi))
  {
    var a, b := IntToString(lo), IntToString(hi);
    var text := FormatToken(Span(lo, hi));
    TrimKeepsTrimmed(text);
    SpanDash(lo, hi);
    assert text[..|a|] == a;
    assert text[|a| + 1..] == b;
    TrimKeepsTrimmed(a);
    TrimKeepsTrimmed(b);
    ParseIntToString(lo);
    ParseIntToString(hi);
  }

  /** Reading a written token gives the token back. */
  lemma TokenRoundTrip(t: RangeToken)
    requires Writable(t)
    ensures ParseToken(FormatToken(t)) == Ok(t)
  {
    match t
    case Single(p) =>
      TrimKeepsTrimmed(FormatToken(t));
      DigitsHaveNo(p, '-');
      ParseIntToString(p);
    case Span(lo, hi) =>
      SpanRoundTrip(lo, hi);
  }

  lemma {:induction false} TokensRoundTrip(ts: seq<RangeToken>)
    requires forall t :: t in ts ==> Writable(t)
    ensures ParseTokens(FormatTokens(ts)) == Ok(ts)
  {
    if |ts| > 0 {
      TokenRoundTrip(ts[0]);
      TokensRoundTrip(ts[1..]);
      ParseTokensCons(FormatToken(ts[0]), FormatTokens(ts[1..]), ts[0], ts[1..]);
      assert [ts[0]] + ts[1..] == ts;
    }
  }

  lemma FormattedTokensHaveNoComma(ts: seq<RangeToken>)
    ensures forall r :: r in FormatTokens(ts) ==> ',' !in r
  {
  }

  /** A token that parses, in front of tokens that parse. */
  lemma ParseTokensCons(raw: string, raws: seq<string>, t: RangeToken, ts: seq<RangeToken>)
    requires ParseToken(raw) == Ok(t) && ParseTokens(raws) == Ok(ts)
    ensures ParseTokens([raw] + raws) == Ok([t] + ts)
  {
    assert ([raw] + raws)[1..] == raws;
  }

  /** A single token that parses. */
  lemma ParseTokensOne(raw: string, t: RangeToken)
    requires ParseToken(raw) == Ok(t)
    ensures ParseTokens([raw]) == Ok([t])
  {
    assert [raw][1..] == [];
    assert ParseTokens([raw][1..]) == Ok([]);
    assert [t] + [] == [t];
  }

  /** Reading a written specification gives back the ports of its tokens, in order. */
  lemma SpecRoundTrip(ts: seq<RangeToken>)
    requires |ts| >= 1
    requires forall t :: t in ts ==> Writable(t)
    ensures ParsePortRange(FormatSpec(ts)) == Ok(Expand(ts))
  {
    FormattedTokensHaveNoComma(ts);
    SplitJoin(FormatTokens(ts), ',');
    TokensRoundTrip(ts);
  }

  // ---------------------------------------------------------------- consuming the ports

  predicate Distinct(s: seq<int>) { forall i, j :: 0 <= i < j < |s| ==> s[i] != s[j] }

  /** Gathers the ports into a set one at a time and gives up, with None, at
      the first port that was already gathered. */
  method CollectDistinct(ports: seq<int>) returns (r: Option<set<int>>)
    ensures r.Some? <==> Distinct(ports)
    ensures r.Some? ==> r.value == (set p | p in ports) && |r.value| == |ports|
  {
    var seen: set<int> := {};
    var i := 0;
    while i < |ports|
      invariant 0 <= i <= |ports|
      invariant seen == set p | p in ports[..i]
      invariant |seen| == i
      invariant Distinct(ports[..i])
    {
      if ports[i] in seen {
        assert ports[i] in ports[..i];
        return None;
      }
      assert ports[..i + 1] == ports[..i] + [ports[i]];
      seen := seen + {ports[i]};
      i := i + 1;
    }
    assert ports[..i] == ports;
    return Some(seen);
  }

  // ---------------------------------------------------------------- the documented examples
  // The *Spec lemmas state the assertions; the *Text, *Trim, *Token, *Tokens
  // and *Expand lemmas are steps that each evaluate one literal.

  predicate StrictlyIncreasing(s: seq<int>) { forall i, j :: 0 <= i < j < |s| ==> s[i] < s[j] }

  /** Blanks around a written token do not change what it reads as. */
  lemma PaddedTokenRoundTrip(a: string, t: RangeToken, b: string)
    requires forall i :: 0 <= i < |a| ==> IsTrimmed(a[i])
    requires forall i :: 0 <= i < |b| ==> IsTrimmed(b[i])
    requires Writable(t)
    ensures ParseToken(a + FormatToken(t) + b) == Ok(t)
  {
    var x := FormatToken(t);
    TokenRoundTrip(t);
    ParseTokenTrimmed(a + x + b);
    assert x[0] != ' ' && x[|x| - 1] != ' ' by {
      match t
      case Single(p) =>
      case Span(lo, hi) =>
        assert x[0] == IntToString(lo)[0];
        assert x[|x| - 1] == IntToString(hi)[|IntToString(hi)| - 1];
    }
    TrimPadded(a, x, b);
  }

  // Each step below is a lemma of its own: a literal specification is taken
  // apart one fact at a time, so that no proof has to evaluate a whole parse.

  lemma HadoopStyleSplit()
    ensures Split("50000-50050, 50100-50200,51234 ", ',') == ["50000-50050", " 50100-50200", "51234 "]
  {
    var raws := ["50000-50050", " 50100-50200", "51234 "];
    assert Join(raws, ',') == "50000-50050, 50100-50200,51234 ";
    SplitJoin(raws, ',');
  }

  lemma FirstRangeText()
    ensures FormatToken(Span(50000, 50050)) == "50000-50050"
  {
    assert Decimal(50000) == "50000";
    assert Decimal(50050) == "50050";
  }

  lemma FirstRangeToken()
    ensures ParseToken("50000-50050") == Ok(Span(50000, 50050))
  {
    FirstRangeText();
    TokenRoundTrip(Span(50000, 50050));
  }

  lemma SecondRangeText()
    ensures FormatToken(Span(50100, 50200)) == "50100-50200"
  {
    assert Decimal(50100) == "50100";
    assert Decimal(50200) == "50200";
  }

  lemma SecondRangeTrim()
    ensures Trim(" 50100-50200") == "50100-50200"
  {
    TrimPadded(" ", "50100-50200", "");
    assert " " + "50100-50200" + "" == " 50100-50200";
  }

  lemma SecondRangeToken()
    ensures ParseToken(" 50100-50200") == Ok(Span(50100, 50200))
  {
    SecondRangeText();
    TokenRoundTrip(Span(50100, 50200));
    SecondRangeTrim();
    ParseTokenTrimmed(" 50100-50200");
  }

  lemma LastPortText()
    ensures FormatToken(Single(51234)) == "51234"
  {
    assert Decimal(51234) == "51234";
  }

  lemma LastPortTrim()
    ensures Trim("51234 ") == "51234"
  {
    TrimPadded("", "51234", " ");
    assert "" + "51234" + " " == "51234 ";
  }

  lemma LastPortToken()
    ensures ParseToken("51234 ") == Ok(Single(51234))
  {
    LastPortText();
    TokenRoundTrip(Single(51234));
    LastPortTrim();
    ParseTokenTrimmed("51234 ");
  }

  lemma LastToken()
    ensures ParseTokens(["51234 "]) == Ok([Single(51234)])
  {
    LastPortToken();
    ParseTokensOne("51234 ", Single(51234));
  }


  // Scaffolding: literal list concatenations, evaluated once.
  lemma LastTwoLists()
    ensures [" 50100-50200"] + ["51234 "] == [" 50100-50200", "51234 "]
    ensures [Span(50100, 50200)] + [Single(51234)] == [Span(50100, 50200), Single(51234)]
  {
  }

  lemma LastTwoTokens()
    ensures ParseTokens([" 50100-50200", "51234 "]) == Ok([Span(50100, 50200), Single(51234)])
  {
    LastToken();
    SecondRangeToken();
    LastTwoLists();
    ParseTokensCons(" 50100-50200", ["51234 "], Span(50100, 50200), [Single(51234)]);
  }

  // Scaffolding: literal list concatenations, evaluated once.
  lemma HadoopStyleLists()
    ensures ["50000-50050"] + [" 50100-50200", "51234 "] == ["50000-50050", " 50100-50200", "51234 "]
    ensures [Span(50000, 50050)] + [Span(50100, 50200), Single(51234)]
         == [Span(50000, 50050), Span(50100, 50200), Single(51234)]
  {
  }

  lemma HadoopStyleTokens()
    ensures ParseTokens(["50000-50050", " 50100-50200", "51234 "])
         == Ok([Span(50000, 50050), Span(50100, 50200), Single(51234)])
  {
    LastTwoTokens();
    FirstRangeToken();
    HadoopStyleLists();
    ParseTokensCons("50000-50050", [" 50100-50200", "51234 "], Span(50000, 50050), [Span(50100, 50200), Single(51234)]);
  }

  lemma HadoopStyleExpand()
    ensures Expand([Span(50000, 50050), Span(50100, 50200), Single(51234)])
         == Ascending(50000, 50050) + Ascending(50100, 50200) + [51234]
  {
    var ts := [Span(50000, 50050), Span(50100, 50200), Single(51234)];
    assert ts[1..][1..][1..] == [];
  }

  /** Whitespace around tokens is ignored; the two ranges and the single port
      give their ports in the order written. */
  lemma HadoopStyleSpec()
    ensures ParsePortRange("50000-50050, 50100-50200,51234 ")
         == Ok(Ascending(50000, 50050) + Ascending(50100, 50200) + [51234])
  {
    HadoopStyleSplit();
    HadoopStyleTokens();
    HadoopStyleExpand();
  }

  /** Two ascending ranges and a port above both never repeat a value. */
  lemma RangesIncrease(a: int, b: int, c: int, d: int, e: int)
    requires a <= b < c <= d < e
    ensures StrictlyIncreasing(Ascending(a, b) + Ascending(c, d) + [e])
  {
  }

  /** The ports of that specification are 153 distinct values: all of
      50000..50050, 50100..50200 and 51234, and nothing else. */
  lemma HadoopStylePorts(p: int)
    ensures ParsePortRange("50000-50050, 50100-50200,51234 ").Ok?
    ensures var ports := ParsePortRange("50000-50050, 50100-50200,51234 ").value;
      |ports| == 153 && Distinct(ports) &&
      (p in ports <==> 50000 <= p <= 50050 || 50100 <= p <= 50200 || p == 51234)
  {
    HadoopStyleSpec();
    HadoopStyleMembers(p);
  }

  lemma HadoopStyleMembers(p: int)
    ensures var ports := Ascending(50000, 50050) + Ascending(50100, 50200) + [51234];
      |ports| == 153 && Distinct(ports) &&
      (p in ports <==> 50000 <= p <= 50050 || 50100 <= p <= 50200 || p == 51234)
  {
    RangesIncrease(50000, 50050, 50100, 50200, 51234);
    AscendingMembers(50000, 50050, p);
    AscendingMembers(50100, 50200, p);
  }

  /** The parse of a specification, given its tokens' parse. */
  lemma ParsePortRangeFrom(text: string, raws: seq<string>, ts: seq<RangeToken>)
    requires Split(text, ',') == raws && ParseTokens(raws) == Ok(ts)
    ensures ParsePortRange(text) == Ok(Expand(ts))
  {
  }

  /** A specification one of whose tokens does not parse. */
  lemma ParsePortRangeRefused(text: string, raws: seq<string>, i: nat)
    requires Split(text, ',') == raws && i < |raws| && ParseToken(raws[i]).Err?
    ensures ParsePortRange(text) == Err(NumberFormat)
  {
    if ParseTokens(raws).Ok? {
      ParseTokensElements(raws);
    }
  }

  lemma SingleRangeTokens()
    ensures ParseTokens(["50000-50050"]) == Ok([Span(50000, 50050)])
  {
    FirstRangeToken();
    ParseTokensOne("50000-50050", Span(50000, 50050));
  }


  lemma SingleRangeExpand()
    ensures Expand([Span(50000, 50050)]) == Ascending(50000, 50050)
  {
  }

  /** One range on its own: every port from 50000 to 50050, ascending. */
  lemma SingleRangeSpec()
    ensures ParsePortRange("50000-50050") == Ok(Ascending(50000, 50050))
  {
    SplitWithout("50000-50050", ',');
    SingleRangeTokens();
    SingleRangeExpand();
  }

  lemma SinglePortTrim()
    ensures Trim(" 51234") == "51234"
  {
    TrimPadded(" ", "51234", "");
    assert " " + "51234" + "" == " 51234";
  }

  lemma SinglePortToken()
    ensures ParseToken(" 51234") == Ok(Single(51234))
  {
    LastPortText();
    TokenRoundTrip(Single(51234));
    SinglePortTrim();
    ParseTokenTrimmed(" 51234");
  }

  lemma SinglePortTokens()
    ensures ParseTokens([" 51234"]) == Ok([Single(51234)])
  {
    SinglePortToken();
    ParseTokensOne(" 51234", Single(51234));
  }


  /** A single port, with a leading blank, yields that one port. */
  lemma SinglePortSpec()
    ensures ParsePortRange(" 51234") == Ok([51234])
  {
    SplitWithout(" 51234", ',');
    SinglePortTokens();
    assert Expand([Single(51234)]) == [51234];
  }

  lemma PortListText()
    ensures FormatSpec([Single(5), Single(1), Single(2), Single(3), Single(4)]) == "5,1,2,3,4"
  {
  }

  lemma PortListPorts()
    ensures Expand([Single(5), Single(1), Single(2), Single(3), Single(4)]) == [5, 1, 2, 3, 4]
  {
  }

  /** A list of single ports keeps the order in which it is written. */
  lemma PortListSpec()
    ensures ParsePortRange("5,1,2,3,4") == Ok([5, 1, 2, 3, 4])
  {
    var ts := [Single(5), Single(1), Single(2), Single(3), Single(4)];
    PortListText();
    PortListPorts();
    SpecRoundTrip(ts);
  }

  lemma HostNameToken()
    ensures ParseToken("localhost") == Err(NumberFormat)
  {
    StrayCharRefused("localhost", 0);
  }

  /** A host name is not a port. */
  lemma HostNameSpec()
    ensures ParsePortRange("localhost") == Err(NumberFormat)
  {
    SplitWithout("localhost", ',');
    HostNameToken();
    ParsePortRangeRefused("localhost", ["localhost"], 0);
  }

  lemma MissingUpperBoundToken()
    ensures ParseToken("5-") == Err(NumberFormat)
  {
    TrimKeepsTrimmed("5-");
    DashAtEndRefused("5-");
  }

  /** A range without an upper bound. */
  lemma MissingUpperBoundSpec()
    ensures ParsePortRange("5-") == Err(NumberFormat)
  {
    SplitWithout("5-", ',');
    MissingUpperBoundToken();
    ParsePortRangeRefused("5-", ["5-"], 0);
  }

  lemma MissingLowerBoundToken()
    ensures ParseToken("-5") == Err(NumberFormat)
  {
    TrimKeepsTrimmed("-5");
    DashAtEndRefused("-5");
  }

  /** A range without a lower bound: the leading '-' is the range dash, not a sign. */
  lemma MissingLowerBoundSpec()
    ensures ParsePortRange("-5") == Err(NumberFormat)
  {
    SplitWithout("-5", ',');
    MissingLowerBoundToken();
    ParsePortRangeRefused("-5", ["-5"], 0);
  }

  lemma EmptyTokenSplit()
    ensures Split(",5", ',') == ["", "5"]
  {
    assert Join(["", "5"], ',') == ",5";
    SplitJoin(["", "5"], ',');
  }

  /** An empty token before the first comma. */
  lemma EmptyTokenSpec()
    ensures ParsePortRange(",5") == Err(NumberFormat)
  {
    EmptyTokenSplit();
    BlankTokenRefused("");
    ParsePortRangeRefused(",5", ["", "5"], 0);
  }

  /** An empty token after the last comma. */
  lemma TrailingEmptyTokenSpec()
    ensures ParsePortRange("5,") == Err(NumberFormat)
  {
    assert Join(["5", ""], ',') == "5,";
    SplitJoin(["5", ""], ',');
    BlankTokenRefused("");
    ParsePortRangeRefused("5,", ["5", ""], 1);
  }
}
