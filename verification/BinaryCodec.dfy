/** binary_escape_string, is_binary_escaped_string and extract_binary_string of
    external/CLI/CLI11.hpp, with the exact condition under which they are inverse. */
module BinaryCodec {
  import opened Text
  import opened Escapes

  /** A lower-case digit, as a hexadecimal output stream writes it. */
  function HexDigit(n: nat): (c: char)
    requires n < 16
    ensures IsHex(c) && HexConvert(c) == n
  {
    if n < 10 then (n + '0' as int) as char else (n - 10 + 'a' as int) as char
  }

  function HexEscape(c: char): (r: string)
    requires c as int < 256
    ensures |r| == 4
  {
    ['\\', 'x', HexDigit(c as int / 16), HexDigit(c as int % 16)]
  }

  function BodyChar(c: char): string
    requires c as int < 256
  {
    if IsPrint(c) then [c] else HexEscape(c)
  }

  /** The first loop of binary_escape_string: unprintable characters become `\xHH`. */
  function Body(s: string): string
    requires Octets(s)
  {
    if s == [] then [] else BodyChar(s[0]) + Body(s[1..])
  }

  predicate AllPrint(s: string) {
    forall i | 0 <= i < |s| :: IsPrint(s[i])
  }

  /** `replace(k, k + 1, "\\x27")`: the second argument is a length, so from a
      quote at position `k` the call removes `k + 1` characters. */
  function ReplaceQuote(e: string, k: nat): string
    requires k < |e|
  {
    e[..k] + "\\x27" + e[if 2 * k + 1 < |e| then 2 * k + 1 else |e|..]
  }

  lemma ReplaceQuoteAdvances(e: string)
    requires Find(e, '\'', 0) < |e|
    ensures var e' := ReplaceQuote(e, Find(e, '\'', 0));
            |e'| - Find(e', '\'', 0) < |e| - Find(e, '\'', 0)
  {
    var k := Find(e, '\'', 0);
    var m := if 2 * k + 1 < |e| then 2 * k + 1 else |e|;
    var e' := ReplaceQuote(e, k);
    var k' := Find(e', '\'', 0);
    assert |e'| == k + 4 + |e| - m;
    assert forall i | 0 <= i < k + 4 :: e'[i] != '\'';
  }

  /** The second loop of binary_escape_string. */
  function FixQuotes(e: string): string
    decreases |e| - Find(e, '\'', 0)
  {
    var k := Find(e, '\'', 0);
    if k == |e| then e else
      ReplaceQuoteAdvances(e);
      FixQuotes(ReplaceQuote(e, k))
  }

  function BinaryEscaped(s: string): string
    requires Octets(s)
  {
    if Body(s) == s then s else "'B\"(" + FixQuotes(Body(s)) + ")\"'"
  }

  method BinaryEscapeString(str: string) returns (r: string)
    requires Octets(str)
    ensures r == BinaryEscaped(str)
  {
    r := [];
    assert str[0..] == str;
    for i := 0 to |str|
      invariant r + Body(str[i..]) == Body(str)
    {
      BodySplit(r, str, i);
      if !IsPrint(str[i]) {
        r := r + HexEscape(str[i]);
      } else {
        r := r + [str[i]];
      }
    }
    assert r == Body(str);
    if r != str {
      var loc := Find(r, '\'', 0);
      while loc < |r|
        invariant loc == Find(r, '\'', 0)
        invariant FixQuotes(r) == FixQuotes(Body(str))
        decreases |r| - loc
      {
        ReplaceQuoteAdvances(r);
        r := ReplaceQuote(r, loc);
        loc := Find(r, '\'', 0);
      }
      r := "'B\"(" + r + ")\"'";
    }
  }

  lemma BodySplit(out: string, s: string, i: nat)
    requires i < |s| && Octets(s)
    ensures out + Body(s[i..]) == out + BodyChar(s[i]) + Body(s[i + 1..])
  {
    assert s[i..][1..] == s[i + 1..];
  }

  // ---------------------------------------------------------------- decoding

  predicate HasEnds(s: string, front: string, back: string) {
    |s| >= |front| && |s| >= |back| && s[..|front|] == front && s[|s| - |back|..] == back
  }

  predicate IsBinary(s: string) {
    HasEnds(s, "B\"(", ")\"") || HasEnds(s, "'B\"(", ")\"'")
  }

  /** `\xHH` or `\XHH` at the head of the text. */
  predicate HexAhead(t: string) {
    |t| >= 4 && t[0] == '\\' && (t[1] == 'x' || t[1] == 'X') && IsHex(t[2]) && IsHex(t[3])
  }

  function HexPair(a: char, b: char): char
    requires IsHex(a) && IsHex(b)
  {
    (HexConvert(a) * 16 + HexConvert(b)) as char
  }

  /** The text between the brackets of a binary string, decoded. */
  function Decoded(t: string): string {
    if t == [] then []
    else if HexAhead(t) then [HexPair(t[2], t[3])] + Decoded(t[4..])
    else [t[0]] + Decoded(t[1..])
  }

  /** How many characters of front and back matter a binary string has. */
  function Frame(s: string): (r: (nat, nat))
    ensures IsBinary(s) ==> r.0 > 0 && r.1 >= 2 && r.0 + r.1 <= |s| && s[|s| - r.1] == ')'
    ensures r.0 == 0 <==> !IsBinary(s)
  {
    if HasEnds(s, "B\"(", ")\"") then
      assert s[2] == '(' && s[|s| - 2] == ')' && s[|s| - 1] == '"' && s[1] == '"' && s[0] == 'B';
      (3, 2)
    else if HasEnds(s, "'B\"(", ")\"'") then
      assert s[3] == '(' && s[|s| - 3] == ')' && s[|s| - 2] == '"' && s[2] == '"' && s[1] == 'B';
      (4, 3)
    else (0, 0)
  }

  function Extracted(s: string): string {
    var (start, tail) := Frame(s);
    if start == 0 then s else Decoded(s[start..|s| - tail])
  }

  /** extract_binary_string.  Reading ahead never leaves the text, and no
      character of the tail is ever consumed by an escape. */
  method ExtractBinaryString(str: string) returns (out: string)
    ensures out == Extracted(str)
  {
    var (start, tail) := Frame(str);
    if start == 0 {
      return str;
    }
    var end := |str| - tail;
    out := [];
    var loc := start;
    while loc < end
      invariant start <= loc <= end
      invariant out + Decoded(str[loc..end]) == Decoded(str[start..end])
    {
      DecodedAt(out, str, loc, end);
      if str[loc] == '\\' && (str[loc + 1] == 'x' || str[loc + 1] == 'X') {
        assert loc + 1 < end;
        var c1 := str[loc + 2];
        var c2 := str[loc + 3];
        var res1 := HexConvert(c1);
        var res2 := HexConvert(c2);
        if res1 <= 0x0F && res2 <= 0x0F {
          out := out + [(res1 * 16 + res2) as char];
          loc := loc + 4;
          continue;
        }
      }
      out := out + [str[loc]];
      loc := loc + 1;
    }
  }

  predicate HexAt(s: string, i: nat) {
    i + 3 < |s| && s[i] == '\\' && (s[i + 1] == 'x' || s[i + 1] == 'X') && IsHex(s[i + 2]) && IsHex(s[i + 3])
  }

  /** An escape that starts before the closing parenthesis also ends before it. */
  lemma DecodedAt(out: string, s: string, loc: nat, end: nat)
    requires loc < end && end + 2 <= |s| && s[end] == ')'
    ensures HexAt(s, loc) ==>
              loc + 4 <= end &&
              out + Decoded(s[loc..end]) == out + [HexPair(s[loc + 2], s[loc + 3])] + Decoded(s[loc + 4..end])
    ensures !HexAt(s, loc) ==> out + Decoded(s[loc..end]) == out + [s[loc]] + Decoded(s[loc + 1..end])
  {
    var u := s[loc..end];
    if HexAt(s, loc) {
      assert loc + 1 != end && loc + 2 != end && loc + 3 != end;
      assert HexAhead(u) && u[2] == s[loc + 2] && u[3] == s[loc + 3];
      assert u[4..] == s[loc + 4..end];
    } else {
      assert !HexAhead(u);
      assert u[1..] == s[loc + 1..end];
    }
  }

  // ---------------------------------------------------------------- round trip

  /** No `\xHH` or `\XHH` is spelled out in the text. */
  predicate NoHexText(s: string) {
    forall i | 0 <= i < |s| :: !HexAhead(s[i..])
  }

  /** Single quotes stand only at the first or last position. */
  predicate QuotesAtEnds(s: string) {
    forall i | 0 <= i < |s| && s[i] == '\'' :: i == 0 || i == |s| - 1
  }

  function Quotes(s: string): nat {
    if s == [] then 0 else (if s[0] == '\'' then 1 else 0) + Quotes(s[1..])
  }

  lemma {:induction false} QuotesConcat(a: string, b: string)
    ensures Quotes(a + b) == Quotes(a) + Quotes(b)
  {
    if a == [] {
      assert a + b == b;
    } else {
      assert (a + b)[1..] == a[1..] + b;
      QuotesConcat(a[1..], b);
    }
  }

  lemma {:induction false} QuotesNone(s: string)
    ensures Quotes(s) == 0 <==> '\'' !in s
  {
    if s != [] {
      QuotesNone(s[1..]);
      assert s == [s[0]] + s[1..];
    }
  }

  /** The length of the text with quotes and unprintable characters all escaped. */
  function Weight(s: string): nat {
    if s == [] then 0 else (if IsPrint(s[0]) && s[0] != '\'' then 1 else 4) + Weight(s[1..])
  }

  lemma {:induction false} WeightOfBody(s: string)
    requires Octets(s)
    ensures |Body(s)| + 3 * Quotes(Body(s)) == Weight(s)
  {
    if s != [] {
      WeightOfBody(s[1..]);
      var h := BodyChar(s[0]);
      QuotesConcat(h, Body(s[1..]));
      if IsPrint(s[0]) {
        assert h[1..] == [];
      } else {
        QuotesNone(h);
      }
    }
  }

  lemma QuotesSplit(e: string, k: nat)
    requires k <= |e|
    ensures Quotes(e) == Quotes(e[..k]) + Quotes(e[k..])
  {
    assert e == e[..k] + e[k..];
    QuotesConcat(e[..k], e[k..]);
  }

  lemma QuotesHead(e: string)
    requires e != [] && e[0] == '\''
    ensures Quotes(e) == 1 + Quotes(e[1..])
  {
  }

  /** The three parts of the text at a quote the loop replaces. */
  lemma ReplaceQuoteWeight(e: string, k: nat, m: nat)
    requires k < m <= |e| && e[k] == '\'' && '\'' !in e[..k]
    ensures Quotes(e) == 1 + Quotes(e[k + 1..m]) + Quotes(e[m..])
    ensures Quotes(e[..k] + "\\x27" + e[m..]) == Quotes(e[m..])
  {
    hide Quotes;
    QuotesNone(e[..k]);
    QuotesSplit(e, k);
    QuotesHead(e[k..]);
    assert e[k..][1..] == e[k + 1..];
    QuotesSplit(e[k + 1..], m - k - 1);
    assert e[k + 1..][..m - k - 1] == e[k + 1..m];
    assert e[k + 1..][m - k - 1..] == e[m..];
    QuotesInserted(e[..k], e[m..]);
  }

  lemma QuotesInserted(a: string, b: string)
    requires Quotes(a) == 0
    ensures Quotes(a + "\\x27" + b) == Quotes(b)
  {
    QuotesNone("\\x27");
    QuotesConcat(a, "\\x27");
    QuotesConcat(a + "\\x27", b);
  }

  lemma QuotesAtEndsStep(e: string)
    requires e != [] && e[0] == '\''
    ensures QuotesAtEnds(e) <==> QuotesAtEnds("\\x27" + e[1..])
  {
    var f := "\\x27" + e[1..];
    assert forall i | 1 <= i < |e| :: f[i + 3] == e[i];
    if QuotesAtEnds(f) {
      forall i | 0 <= i < |e| && e[i] == '\''
        ensures i == 0 || i == |e| - 1
      {
        if i > 0 { assert f[i + 3] == '\''; }
      }
    }
    if QuotesAtEnds(e) {
      forall j | 0 <= j < |f| && f[j] == '\''
        ensures j == 0 || j == |f| - 1
      {
        assert j >= 4 && e[j - 3] == '\'';
      }
    }
  }

  /** The quote loop keeps the weight exactly when no quote is inside the text. */
  lemma {:induction false} FixQuotesWeight(e: string)
    ensures |FixQuotes(e)| <= |e| + 3 * Quotes(e)
    ensures |FixQuotes(e)| == |e| + 3 * Quotes(e) <==> QuotesAtEnds(e)
    decreases |e| - Find(e, '\'', 0)
  {
    var k := Find(e, '\'', 0);
    QuotesNone(e);
    if k < |e| {
      var m := if 2 * k + 1 < |e| then 2 * k + 1 else |e|;
      var e' := ReplaceQuote(e, k);
      ReplaceQuoteAdvances(e);
      ReplaceQuoteWeight(e, k, m);
      FixQuotesWeight(e');
      if k == 0 {
        assert e' == "\\x27" + e[1..];
        assert Quotes(e[1..1]) == 0;
        QuotesAtEndsStep(e);
      } else if k == |e| - 1 {
        assert Quotes(e[k + 1..m]) == 0;
        assert QuotesAtEnds(e);
        assert e[m..] == [];
        QuotesNone(e');
        assert QuotesAtEnds(e');
      }
    }
  }

  /** Printable text without quotes stays so while the quotes of `e` are replaced. */
  lemma {:induction false} FixQuotesPrintable(e: string)
    requires AllPrint(e)
    ensures AllPrint(FixQuotes(e)) && '\'' !in FixQuotes(e)
    decreases |e| - Find(e, '\'', 0)
  {
    var k := Find(e, '\'', 0);
    if k < |e| {
      ReplaceQuoteAdvances(e);
      FixQuotesPrintable(ReplaceQuote(e, k));
    }
  }

  lemma {:induction false} BodyPrintable(s: string)
    requires Octets(s)
    ensures AllPrint(Body(s))
    ensures |Body(s)| >= |s| && (Body(s) == s <==> AllPrint(s))
  {
    if s != [] {
      BodyPrintable(s[1..]);
      assert s == [s[0]] + s[1..];
      assert Body(s)[|BodyChar(s[0])|..] == Body(s[1..]);
      if AllPrint(s) {
        assert forall i | 0 <= i < |s| - 1 :: s[1..][i] == s[i + 1];
      } else if IsPrint(s[0]) {
        var i :| 0 <= i < |s| && !IsPrint(s[i]);
        assert s[1..][i - 1] == s[i];
      }
    }
  }

  /** Decoding never weighs more than the text decoded. */
  lemma {:induction false} DecodedWeight(t: string)
    requires AllPrint(t) && '\'' !in t
    ensures Weight(Decoded(t)) <= |t|
  {
    if t != [] {
      var n := if HexAhead(t) then 4 else 1;
      assert AllPrint(t[n..]) && '\'' !in t[n..];
      DecodedWeight(t[n..]);
      assert Decoded(t)[1..] == Decoded(t[n..]);
    }
  }

  /** Text with every quote and unprintable character escaped in place. */
  function FullChar(c: char): string
    requires c as int < 256
  {
    if IsPrint(c) && c != '\'' then [c] else HexEscape(c)
  }

  function Full(s: string): string
    requires Octets(s)
  {
    if s == [] then [] else FullChar(s[0]) + Full(s[1..])
  }

  /** Each quote replaced in place. */
  function InPlace(e: string): string {
    if e == [] then [] else (if e[0] == '\'' then "\\x27" else [e[0]]) + InPlace(e[1..])
  }

  lemma {:induction false} InPlaceConcat(a: string, b: string)
    ensures InPlace(a + b) == InPlace(a) + InPlace(b)
  {
    if a == [] {
      assert a + b == b;
    } else {
      assert (a + b)[1..] == a[1..] + b;
      InPlaceConcat(a[1..], b);
    }
  }

  lemma {:induction false} InPlaceNone(e: string)
    requires '\'' !in e
    ensures InPlace(e) == e
  {
    if e != [] {
      InPlaceNone(e[1..]);
      assert e == [e[0]] + e[1..];
    }
  }

  lemma {:induction false} FixQuotesInPlace(e: string)
    requires QuotesAtEnds(e)
    ensures FixQuotes(e) == InPlace(e)
    decreases |e| - Find(e, '\'', 0)
  {
    var k := Find(e, '\'', 0);
    if k == |e| {
      InPlaceNone(e);
    } else {
      assert e[k] == '\'' && (k == 0 || k == |e| - 1);
      var e' := ReplaceQuote(e, k);
      ReplaceQuoteAdvances(e);
      if k == 0 {
        assert e' == "\\x27" + e[1..];
        QuotesAtEndsStep(e);
        FixQuotesInPlace(e');
        InPlaceConcat("\\x27", e[1..]);
        InPlaceNone("\\x27");
      } else {
        assert e' == e[..k] + "\\x27";
        assert e == e[..k] + "'";
        InPlaceConcat(e[..k], "'");
        InPlaceNone(e[..k]);
        assert InPlace("'") == "\\x27";
      }
    }
  }

  lemma {:induction false} InPlaceBody(s: string)
    requires Octets(s)
    ensures InPlace(Body(s)) == Full(s)
  {
    if s != [] {
      InPlaceBody(s[1..]);
      InPlaceConcat(BodyChar(s[0]), Body(s[1..]));
      if s[0] == '\'' {
        assert InPlace("'") == "\\x27";
        assert HexEscape('\'') == "\\x27";
      } else {
        InPlaceNone(BodyChar(s[0]));
      }
    }
  }

  /** A run of the full text without a backslash is a run of the original. */
  lemma {:induction false} FullPrefix(s: string, p: string)
    requires Octets(s) && '\\' !in p && p <= Full(s)
    ensures p <= s
  {
    if p != [] {
      assert s != [] && Full(s)[0] == p[0] == FullChar(s[0])[0];
      assert Full(s)[1..] == Full(s[1..]);
      assert p[1..] <= Full(s)[1..];
      FullPrefix(s[1..], p[1..]);
      assert p == [p[0]] + p[1..];
      assert s == [s[0]] + s[1..];
    }
  }

  /** A run of printable characters other than quotes is written as it is. */
  lemma {:induction false} FullPlain(p: string, s: string)
    requires Octets(p) && Octets(s) && AllPrint(p) && '\'' !in p
    ensures Full(p + s) == p + Full(s)
  {
    if p == [] {
      assert p + s == s;
    } else {
      assert (p + s)[1..] == p[1..] + s;
      FullPlain(p[1..], s);
      assert p == [p[0]] + p[1..];
    }
  }

  lemma HexAheadOfFull(s: string)
    requires Octets(s) && s != [] && IsPrint(s[0]) && s[0] != '\'' && HexAhead(Full(s))
    ensures HexAhead(s)
  {
    var f, t := Full(s), s[1..];
    assert f == [s[0]] + Full(t);
    var p := [f[1], f[2], f[3]];
    assert p == Full(t)[..3];
    FullPrefix(t, p);
    assert s[1] == t[0] == p[0] && s[2] == t[1] == p[1] && s[3] == t[2] == p[2];
  }

  lemma FullOfHexAhead(s: string)
    requires Octets(s) && HexAhead(s)
    ensures Full(s) == s[..4] + Full(s[4..]) && HexAhead(Full(s))
  {
    var p := s[..4];
    assert s == p + s[4..];
    assert p == [s[0], s[1], s[2], s[3]];
    FullPlain(p, s[4..]);
    var f := Full(s);
    assert f[0] == p[0] && f[1] == p[1] && f[2] == p[2] && f[3] == p[3];
  }

  lemma HexAheadFull(s: string)
    requires Octets(s) && s != [] && IsPrint(s[0]) && s[0] != '\''
    ensures HexAhead(Full(s)) <==> HexAhead(s)
    ensures HexAhead(s) ==> Full(s) == s[..4] + Full(s[4..])
  {
    if HexAhead(Full(s)) {
      HexAheadOfFull(s);
    }
    if HexAhead(s) {
      FullOfHexAhead(s);
    }
  }

  /** Decoding the head of a fully escaped text. */
  lemma DecodedFullStep(s: string)
    requires Octets(s) && s != []
    ensures !HexAhead(s) ==> Decoded(Full(s)) == [s[0]] + Decoded(Full(s[1..]))
    ensures HexAhead(s) ==> Decoded(Full(s)) == [HexPair(s[2], s[3])] + Decoded(Full(s[4..]))
  {
    var f := Full(s);
    if IsPrint(s[0]) && s[0] != '\'' {
      HexAheadFull(s);
      if HexAhead(s) {
        assert f[4..] == Full(s[4..]) && f[2] == s[2] && f[3] == s[3];
      } else {
        assert f[1..] == Full(s[1..]);
      }
    } else {
      var h := HexEscape(s[0]);
      assert f[4..] == Full(s[1..]) && f[..4] == h;
      assert f[2] == h[2] && f[3] == h[3] && HexAhead(f);
      assert HexPair(h[2], h[3]) == s[0];
    }
  }

  lemma NoHexTextTail(s: string, n: nat)
    requires NoHexText(s) && n <= |s|
    ensures NoHexText(s[n..])
  {
    forall i | 0 <= i < |s[n..]|
      ensures !HexAhead(s[n..][i..])
    {
      assert s[n..][i..] == s[n + i..];
    }
  }

  /** A fully escaped text decodes to its original exactly when the original
      spells out no escape of its own; otherwise characters are lost. */
  lemma {:induction false} DecodedFull(s: string)
    requires Octets(s)
    ensures NoHexText(s) ==> Decoded(Full(s)) == s
    ensures !NoHexText(s) ==> |Decoded(Full(s))| < |s|
  {
    if s != [] {
      DecodedFullStep(s);
      assert s[0..] == s;
      var n := if HexAhead(s) then 4 else 1;
      DecodedFull(s[n..]);
      if NoHexText(s) {
        assert !HexAhead(s[0..]);
        NoHexTextTail(s, 1);
        assert [s[0]] + s[1..] == s;
      } else if !HexAhead(s) {
        var i :| 0 <= i < |s| && HexAhead(s[i..]);
        assert s[1..][i - 1..] == s[i..];
      }
    }
  }

  lemma {:induction false} BodyConcat(a: string, b: string)
    requires Octets(a) && Octets(b)
    ensures Body(a + b) == Body(a) + Body(b)
  {
    if a == [] {
      assert a + b == b;
    } else {
      assert (a + b)[1..] == a[1..] + b;
      BodyConcat(a[1..], b);
    }
  }

  lemma BodySingle(c: char)
    requires c as int < 256
    ensures Body([c]) == BodyChar(c)
  {
    assert [c][1..] == [];
    assert BodyChar(c) + [] == BodyChar(c);
  }

  lemma BodyPrepend(c: char, b: string)
    requires c as int < 256 && Octets(b)
    ensures Octets([c] + b) && Body([c] + b) == BodyChar(c) + Body(b)
  {
    hide BodyChar;
    assert ([c] + b)[1..] == b;
  }

  lemma BodyPieces(a: string, c: char, b: string)
    requires Octets(a) && c as int < 256 && Octets(b)
    ensures Octets(a + ([c] + b)) && Body(a + ([c] + b)) == Body(a) + (BodyChar(c) + Body(b))
  {
    hide Body, BodyChar;
    BodyPrepend(c, b);
    BodyConcat(a, [c] + b);
  }

  lemma OctetsAround(s: string, i: nat)
    requires Octets(s) && i < |s|
    ensures Octets(s[..i]) && Octets(s[i + 1..]) && s[i] as int < 256 && s == s[..i] + ([s[i]] + s[i + 1..])
  {
  }

  lemma BodyAround(s: string, i: nat)
    requires Octets(s) && i < |s|
    ensures Body(s) == Body(s[..i]) + (BodyChar(s[i]) + Body(s[i + 1..]))
  {
    OctetsAround(s, i);
    hide Body, BodyChar, Octets;
    BodyPieces(s[..i], s[i], s[i + 1..]);
  }

  /** A quote at position `i` of the text and its place in the body. */
  lemma BodyQuote(s: string, i: nat)
    requires Octets(s) && i < |s| && s[i] == '\''
    ensures var p := |Body(s[..i])|;
            && p < |Body(s)| && Body(s)[p] == '\''
            && (p == 0 <==> i == 0) && (p == |Body(s)| - 1 <==> i == |s| - 1)
  {
    BodyAround(s, i);
    BodyPrintable(s[..i]);
    BodyPrintable(s[i + 1..]);
  }

  /** Where a quote of the body comes from. */
  lemma {:induction false} QuoteOfBody(s: string, p: nat) returns (i: nat)
    requires Octets(s) && p < |Body(s)| && Body(s)[p] == '\''
    ensures i < |s| && s[i] == '\'' && p == |Body(s[..i])|
  {
    var h := BodyChar(s[0]);
    if p < |h| {
      i := 0;
    } else {
      var j := QuoteOfBody(s[1..], p - |h|);
      i := j + 1;
      assert s[..i] == [s[0]] + s[1..][..j];
      BodyConcat([s[0]], s[1..][..j]);
      BodySingle(s[0]);
    }
  }

  lemma QuotesAtEndsOfBody(s: string)
    requires Octets(s)
    ensures QuotesAtEnds(Body(s)) <==> QuotesAtEnds(s)
  {
    if QuotesAtEnds(Body(s)) {
      forall i | 0 <= i < |s| && s[i] == '\''
        ensures i == 0 || i == |s| - 1
      {
        BodyQuote(s, i);
      }
    }
    if QuotesAtEnds(s) {
      forall p | 0 <= p < |Body(s)| && Body(s)[p] == '\''
        ensures p == 0 || p == |Body(s)| - 1
      {
        var i := QuoteOfBody(s, p);
        BodyQuote(s, i);
      }
    }
  }

  /** Reading back the quote loop's output gives the original exactly when
      nothing was cut away and the original spells out no escape. */
  lemma DecodedFixQuotes(s: string)
    requires Octets(s)
    ensures Decoded(FixQuotes(Body(s))) == s <==> NoHexText(s) && QuotesAtEnds(s)
  {
    var b := Body(s);
    QuotesAtEndsOfBody(s);
    BodyPrintable(s);
    FixQuotesPrintable(b);
    FixQuotesWeight(b);
    WeightOfBody(s);
    DecodedWeight(FixQuotes(b));
    if QuotesAtEnds(s) {
      FixQuotesInPlace(b);
      InPlaceBody(s);
      DecodedFull(s);
    }
  }

  /** The characters between the frame of a binary string are the escaped text. */
  lemma ExtractedFramed(t: string)
    ensures IsBinary("'B\"(" + t + ")\"'") && Extracted("'B\"(" + t + ")\"'") == Decoded(t)
  {
    var s := "'B\"(" + t + ")\"'";
    assert s[..4] == "'B\"(" && s[|s| - 3..] == ")\"'";
    assert s[0] == '\'';
    assert s[4..|s| - 3] == t;
  }

  /** The binary codec round trip, for every string that needs the binary form:
      it holds exactly when the string spells out no escape of its own and its
      single quotes stand only at its ends. */
  lemma BinaryRoundTrip(s: string)
    requires Octets(s) && !AllPrint(s)
    ensures IsBinary(BinaryEscaped(s))
    ensures Extracted(BinaryEscaped(s)) == s <==> NoHexText(s) && QuotesAtEnds(s)
  {
    BodyPrintable(s);
    ExtractedFramed(FixQuotes(Body(s)));
    DecodedFixQuotes(s);
  }

  /** A quote inside the string, or an escape spelled out in it, is lost. */
  lemma BinaryLoses()
    ensures var s := "a'b\n"; Octets(s) && !AllPrint(s) && Extracted(BinaryEscaped(s)) != s
    ensures var s := "\\x41\n"; Octets(s) && !AllPrint(s) && Extracted(BinaryEscaped(s)) != s
  {
    hide Extracted, BinaryEscaped, IsBinary;
    var quoted, spelled := "a'b\n", "\\x41\n";
    assert !IsPrint(quoted[3]) && quoted[1] == '\'' && !QuotesAtEnds(quoted);
    BinaryRoundTrip(quoted);
    assert !IsPrint(spelled[4]) && !NoHexText(spelled) by {
      assert HexAhead(spelled[0..]);
    }
    BinaryRoundTrip(spelled);
  }
}
