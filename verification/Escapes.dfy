/** The escape codec for double-quoted strings: add_escaped_characters,
    remove_escaped_characters and hexConvert of external/CLI/CLI11.hpp. */
module Escapes {
  import opened Text
  import opened Utf8

  const BACKSPACE: char := 8 as char
  const FORMFEED: char := 12 as char
  const UINT32: nat := 0x1_0000_0000

  /** The characters of `escapedChars`. */
  predicate IsEscapable(c: char) {
    c == BACKSPACE || c == '\t' || c == '\n' || c == FORMFEED || c == '\r' || c == '"' || c == '\\'
  }

  /** The entry of `escapedCharsCode` at the position of `c` in `escapedChars`. */
  function CodeOf(c: char): char
    requires IsEscapable(c)
  {
    if c == BACKSPACE then 'b' else if c == '\t' then 't' else if c == '\n' then 'n'
    else if c == FORMFEED then 'f' else if c == '\r' then 'r' else c
  }

  /** The entry of `escapedChars` at the position of `code` in `escapedCharsCode`. */
  function CharOf(code: char): Option<char> {
    if code == 'b' then Some(BACKSPACE) else if code == 't' then Some('\t') else if code == 'n' then Some('\n')
    else if code == 'f' then Some(FORMFEED) else if code == 'r' then Some('\r')
    else if code == '"' || code == '\\' then Some(code) else None
  }

  predicate HasEscapable(s: string) {
    exists i :: 0 <= i < |s| && IsEscapable(s[i])
  }

  /** What add_escaped_characters writes for one character. */
  function EscapedChar(c: char): string {
    if IsEscapable(c) then ['\\', CodeOf(c)] else [c]
  }

  function Escaped(s: string): string {
    if s == [] then [] else EscapedChar(s[0]) + Escaped(s[1..])
  }

  lemma EscapedSplit(out: string, s: string, i: nat)
    requires i < |s|
    ensures out + Escaped(s[i..]) == out + EscapedChar(s[i]) + Escaped(s[i + 1..])
  {
    assert s[i..][1..] == s[i + 1..];
  }

  method AddEscapedCharacters(str: string) returns (out: string)
    ensures out == Escaped(str)
  {
    out := [];
    for i := 0 to |str|
      invariant out + Escaped(str[i..]) == Escaped(str)
    {
      EscapedSplit(out, str, i);
      if IsEscapable(str[i]) {
        out := out + ['\\', CodeOf(str[i])];
      } else {
        out := out + [str[i]];
      }
    }
    assert str[|str|..] == [];
  }

  /** hexConvert: the digit value, or -1 cast to a 32-bit unsigned integer. */
  function HexConvert(c: char): (r: nat)
    ensures r < UINT32
    ensures r <= 15 <==> IsHex(c)
  {
    if IsDigit(c) then c as int - '0' as int
    else if 'A' <= c <= 'F' then c as int - 'A' as int + 10
    else if 'a' <= c <= 'f' then c as int - 'a' as int + 10
    else UINT32 - 1
  }

  function Add32(a: nat, b: nat): nat {
    (a + b) % UINT32
  }

  function Mul32(a: nat, b: nat): nat {
    (a * b) % UINT32
  }

  predicate AllHex(d: string) {
    forall i | 0 <= i < |d| :: IsHex(d[i])
  }

  function Pow16(n: nat): (r: nat)
    ensures r >= 1
  {
    if n == 0 then 1 else 16 * Pow16(n - 1)
  }

  /** The number a string of hexadecimal digits denotes. */
  function HexValue(d: string): (v: nat)
    requires AllHex(d)
  {
    if d == [] then 0 else HexValue(d[..|d| - 1]) * 16 + HexConvert(d[|d| - 1])
  }

  lemma {:induction false} HexValueBound(d: string)
    requires AllHex(d)
    ensures HexValue(d) < Pow16(|d|)
  {
    if d != [] {
      HexValueBound(d[..|d| - 1]);
    }
  }

  /** The digit loop of the `\u` and `\U` escapes, in 32-bit unsigned arithmetic
      with a multiplier that starts at 16^(n-1).  The result is the exact
      positional value: no step wraps. */
  method ReadHex(str: string, pos: nat, n: nat) returns (r: Option<nat>)
    requires pos + n <= |str| && 1 <= n <= 8
    ensures r == if AllHex(str[pos..pos + n]) then Some(HexValue(str[pos..pos + n])) else None
    ensures r.Some? ==> r.value < UINT32
  {
    ghost var d := str[pos..pos + n];
    var code := 0;
    var mplier := Pow16(n - 1);
    for ii := 0 to n
      invariant AllHex(d[..ii])
      invariant ii < n ==> mplier == Pow16(n - 1 - ii)
      invariant code == HexValue(d[..ii]) * Pow16(n - ii)
    {
      var res := HexConvert(str[pos + ii]);
      assert d[ii] == str[pos + ii];
      if res > 0x0F {
        assert !IsHex(d[ii]);
        return None;
      }
      HexStep(d, ii, n);
      code := Add32(code, Mul32(res, mplier));
      mplier := mplier / 16;
    }
    assert d[..n] == d;
    HexBelowUint32(d);
    r := Some(code);
  }

  lemma Pow16Monotone(m: nat, n: nat)
    requires m <= n
    ensures Pow16(m) <= Pow16(n)
    decreases n - m
  {
    if m < n { Pow16Monotone(m + 1, n); }
  }

  lemma Pow16Eight()
    ensures Pow16(8) == UINT32
  {
    assert Pow16(2) == 256;
    assert Pow16(4) == 65536;
    assert Pow16(6) == 0x100_0000;
  }

  lemma HexBelowUint32(d: string)
    requires AllHex(d) && |d| <= 8
    ensures HexValue(d) < UINT32
  {
    HexValueBound(d);
    Pow16Monotone(|d|, 8);
    Pow16Eight();
  }

  /** Adding one scaled digit does not wrap while the result fits 32 bits. */
  lemma AccumulateDigit(h: nat, x: nat, p: nat)
    requires (h * 16 + x) * p < UINT32
    ensures Add32(h * (16 * p), Mul32(x, p)) == (h * 16 + x) * p
  {
    assert h * (16 * p) + x * p == (h * 16 + x) * p;
    assert 0 <= h * (16 * p);
    assert 0 <= x * p < UINT32;
  }

  /** One turn of the digit loop stays below 2^32 and extends the prefix value. */
  lemma HexStep(d: string, ii: nat, n: nat)
    requires ii < n == |d| <= 8 && AllHex(d[..ii]) && IsHex(d[ii])
    ensures AllHex(d[..ii + 1])
    ensures Add32(HexValue(d[..ii]) * Pow16(n - ii), Mul32(HexConvert(d[ii]), Pow16(n - 1 - ii)))
            == HexValue(d[..ii + 1]) * Pow16(n - 1 - ii)
    ensures Pow16(n - 1 - ii) / 16 == if ii + 1 < n then Pow16(n - 2 - ii) else 0
  {
    var e := d[..ii + 1];
    assert e[..ii] == d[..ii];
    assert forall k | 0 <= k < ii :: e[k] == d[..ii][k];
    HexValueBound(e);
    HexTop(HexValue(e), ii, n);
    AccumulateDigit(HexValue(d[..ii]), HexConvert(d[ii]), Pow16(n - 1 - ii));
  }

  lemma ScaleLess(v: nat, b: nat, p: nat)
    requires v < b && p > 0
    ensures v * p < b * p
  {
  }

  lemma HexTop(v: nat, ii: nat, n: nat)
    requires ii < n <= 8 && v < Pow16(ii + 1)
    ensures v * Pow16(n - 1 - ii) < UINT32
  {
    hide Pow16;
    Pow16Sum(ii + 1, n - 1 - ii);
    Pow16Monotone(n, 8);
    Pow16Eight();
    ScaleLess(v, Pow16(ii + 1), Pow16(n - 1 - ii));
  }

  lemma {:induction false} Pow16Sum(a: nat, b: nat)
    ensures Pow16(a) * Pow16(b) == Pow16(a + b)
  {
    if a > 0 {
      Pow16Sum(a - 1, b);
      assert Pow16(a) * Pow16(b) == 16 * (Pow16(a - 1) * Pow16(b));
    }
  }

  /** A `\u` or `\U` escape with `n` digits at the head of `s`: the bytes it adds
      and the characters it takes up. */
  function UnicodeEscape(s: string, n: nat): (r: Option<(string, nat)>)
    ensures r.Some? ==> r.value.1 == 2 + n <= |s|
  {
    if |s| < 2 + n || !AllHex(s[2..2 + n]) then None
    else
      match AppendCodepoint(HexValue(s[2..2 + n]))
      case None => None
      case Some(bytes) => Some((bytes, 2 + n))
  }

  /** The escape sequence at the head of `s`; None where the source throws. */
  function EscapeAt(s: string): (r: Option<(string, nat)>)
    requires s != [] && s[0] == '\\'
    ensures r.Some? ==> 2 <= r.value.1 <= |s|
  {
    if |s| < 2 then None
    else if CharOf(s[1]).Some? then Some(([CharOf(s[1]).value], 2))
    else if s[1] == 'u' then UnicodeEscape(s, 4)
    else if s[1] == 'U' then UnicodeEscape(s, 8)
    else if s[1] == '0' then Some(([0 as char], 2))
    else None
  }

  function Prepend(p: string, r: Option<string>): Option<string> {
    if r.Some? then Some(p + r.value) else None
  }

  /** The meaning of a text with escapes; None where the source throws. */
  function Unescaped(s: string): Option<string> {
    if s == [] then Some([])
    else if s[0] != '\\' then Prepend([s[0]], Unescaped(s[1..]))
    else
      match EscapeAt(s)
      case None => None
      case Some((bytes, n)) => Prepend(bytes, Unescaped(s[n..]))
  }

  lemma PrependNil(p: string, r: Option<string>)
    ensures Prepend([], r) == r && Prepend(p, Some([])) == Some(p)
  {
    if r.Some? {
      assert [] + r.value == r.value;
    }
    assert p + [] == p;
  }

  lemma PrependTwice(p: string, q: string, r: Option<string>)
    ensures Prepend(p, Prepend(q, r)) == Prepend(p + q, r)
  {
    if r.Some? {
      assert p + (q + r.value) == p + q + r.value;
    }
  }

  /** The head of a text with escapes, at position `loc` of `s`. */
  lemma UnescapedAt(out: string, s: string, loc: nat)
    requires loc < |s|
    ensures s[loc] != '\\' ==>
              Prepend(out, Unescaped(s[loc..])) == Prepend(out + [s[loc]], Unescaped(s[loc + 1..]))
    ensures s[loc] == '\\' && EscapeAt(s[loc..]).Some? ==>
              var (bytes, n) := EscapeAt(s[loc..]).value;
              Prepend(out, Unescaped(s[loc..])) == Prepend(out + bytes, Unescaped(s[loc + n..]))
    ensures s[loc] == '\\' && EscapeAt(s[loc..]).None? ==> Unescaped(s[loc..]).None?
  {
    var t := s[loc..];
    assert t[1..] == s[loc + 1..];
    if s[loc] != '\\' {
      PrependTwice(out, [s[loc]], Unescaped(t[1..]));
    } else if EscapeAt(t).Some? {
      var (bytes, n) := EscapeAt(t).value;
      assert t[n..] == s[loc + n..];
      PrependTwice(out, bytes, Unescaped(t[n..]));
    }
  }

  /** remove_escaped_characters. */
  method RemoveEscapedCharacters(str: string) returns (r: Option<string>)
    ensures r == Unescaped(str)
  {
    var out := [];
    var loc := 0;
    assert str[0..] == str;
    PrependNil([], Unescaped(str));
    while loc < |str|
      invariant loc <= |str|
      invariant Prepend(out, Unescaped(str[loc..])) == Unescaped(str)
    {
      UnescapedAt(out, str, loc);
      if str[loc] == '\\' {
        var bytes, n := ReadEscape(str, loc);
        if n == 0 {
          return None;
        }
        out := out + bytes;
        loc := loc + n;
      } else {
        out := out + [str[loc]];
        loc := loc + 1;
      }
    }
    assert str[loc..] == [];
    PrependNil(out, None);
    r := Some(out);
  }

  /** One escape sequence of remove_escaped_characters; zero characters consumed means it throws. */
  method ReadEscape(str: string, loc: nat) returns (bytes: string, n: nat)
    requires loc < |str| && str[loc] == '\\'
    ensures EscapeAt(str[loc..]) == if n == 0 then None else Some((bytes, n))
  {
    bytes, n := [], 0;
    ghost var s := str[loc..];
    if |str| - loc < 2 {
      return;
    }
    assert s[1] == str[loc + 1];
    var c := CharOf(str[loc + 1]);
    if c.Some? {
      bytes, n := [c.value], 2;
    } else if str[loc + 1] == 'u' || str[loc + 1] == 'U' {
      var digits := if str[loc + 1] == 'u' then 4 else 8;
      if |str| - loc < 2 + digits {
        return;
      }
      assert s[2..2 + digits] == str[loc + 2..loc + 2 + digits];
      var code := ReadHex(str, loc + 2, digits);
      if code.Some? {
        var appended := AppendCodepoint(code.value);
        if appended.Some? {
          bytes, n := appended.value, 2 + digits;
        }
      }
    } else if str[loc + 1] == '0' {
      bytes, n := [0 as char], 2;
    }
  }

  /** Text without a backslash is left alone. */
  lemma {:induction false} UnescapedPlain(s: string)
    requires '\\' !in s
    ensures Unescaped(s) == Some(s)
  {
    if s != [] {
      UnescapedPlain(s[1..]);
      assert [s[0]] + s[1..] == s;
    }
  }

  /** Escaping is undone by unescaping, for every string. */
  lemma {:induction false} UnescapedEscaped(s: string)
    ensures Unescaped(Escaped(s)) == Some(s)
  {
    if s != [] {
      UnescapedEscaped(s[1..]);
      var e := EscapedChar(s[0]);
      var t := Escaped(s[1..]);
      assert (e + t)[|e|..] == t;
      assert [s[0]] + s[1..] == s;
      if IsEscapable(s[0]) {
        assert CharOf(CodeOf(s[0])) == Some(s[0]);
        assert EscapeAt(e + t) == Some(([s[0]], 2));
      }
    }
  }

  /** A string with no escapable character is its own escaped form. */
  lemma {:induction false} EscapedPlain(s: string)
    requires !HasEscapable(s)
    ensures Escaped(s) == s
  {
    if s != [] {
      assert !IsEscapable(s[0]);
      assert forall i | 0 <= i < |s| - 1 :: s[1..][i] == s[i + 1];
      EscapedPlain(s[1..]);
      assert [s[0]] + s[1..] == s;
    }
  }

  /** Four or eight hexadecimal digits, as a `\u` or `\U` escape takes them. */
  predicate IsSpelling(d: string) {
    (|d| == 4 || |d| == 8) && AllHex(d)
  }

  function Spelled(d: string): string
    requires IsSpelling(d)
  {
    (if |d| == 4 then "\\u" else "\\U") + d
  }

  function SpelledAll(ds: seq<string>): string
    requires forall i | 0 <= i < |ds| :: IsSpelling(ds[i])
  {
    if ds == [] then [] else Spelled(ds[0]) + SpelledAll(ds[1..])
  }

  /** The values of the spelled codes that lie in the Unicode range. */
  function SpelledCodes(ds: seq<string>): (codes: seq<nat>)
    requires forall i | 0 <= i < |ds| :: IsSpelling(ds[i])
  {
    if ds == [] then []
    else
      assert IsSpelling(ds[0]);
      (if HexValue(ds[0]) < 0x110000 then [HexValue(ds[0])] else []) + SpelledCodes(ds[1..])
  }

  lemma EscapeAtSpelled(d: string, t: string)
    requires IsSpelling(d)
    ensures EscapeAt(Spelled(d) + t) ==
            match AppendCodepoint(HexValue(d))
            case None => None
            case Some(bytes) => Some((bytes, 2 + |d|))
  {
    hide AllHex, HexValue, AppendCodepoint;
    var s := Spelled(d) + t;
    assert s[0] == '\\' && s[1] == (if |d| == 4 then 'u' else 'U') && |s| == 2 + |d| + |t|;
    assert s[2..2 + |d|] == d;
    assert EscapeAt(s) == UnicodeEscape(s, |d|);
  }

  predicate AllScalar(codes: seq<nat>) {
    forall i | 0 <= i < |codes| :: IsScalar(codes[i])
  }

  /** Unicode escapes: a text of them is rejected exactly when it spells a
      surrogate; otherwise the result is the shortest UTF-8 of the codes in
      range, and decodes to them.  Codes above 0x10FFFF vanish. */
  lemma {:induction false} UnescapedSpelled(ds: seq<string>)
    requires forall i | 0 <= i < |ds| :: IsSpelling(ds[i])
    ensures var codes := SpelledCodes(ds); var r := Unescaped(SpelledAll(ds));
            if AllScalar(codes) then r == Some(EncodeAll(codes)) && Decode(r.value) == Some(codes) else r.None?
  {
    var codes := SpelledCodes(ds);
    if AllScalar(codes) {
      DecodeEncodeAll(codes);
    }
    if ds != [] {
      var v := HexValue(ds[0]);
      var e := Spelled(ds[0]);
      var t := SpelledAll(ds[1..]);
      EscapeAtSpelled(ds[0], t);
      UnescapedSpelled(ds[1..]);
      assert (e + t)[|e|..] == t;
      if v < 0x110000 {
        assert codes == [v] + SpelledCodes(ds[1..]);
        assert codes[1..] == SpelledCodes(ds[1..]);
        assert AllScalar(codes) <==> IsScalar(v) && AllScalar(codes[1..]);
      } else {
        assert codes == SpelledCodes(ds[1..]);
        PrependNil([], Unescaped(t));
      }
    }
  }
}
