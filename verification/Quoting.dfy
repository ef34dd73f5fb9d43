/** process_quoted_string of external/CLI/CLI11.hpp, at the default quote characters. */
module Quoting {
  import opened Text
  import opened Escapes
  import opened Brackets
  import opened BinaryCodec
  import opened Splitting

  /** The text a value stands for once its quotes are processed; None where the source throws. */
  function Unquoted(s: string): Option<string> {
    if |s| <= 1 then Some(s)
    else if IsBinary(s) then Some(Extracted(s))
    else if s[0] == '"' && s[|s| - 1] == '"' then
      if '\\' in Inner(s) then Unescaped(Inner(s)) else Some(Inner(s))
    else if (s[0] == '\'' || s[0] == '`') && s[|s| - 1] == s[0] then Some(Inner(s))
    else Some(s)
  }

  /** The escaped form of any string is the text of a string literal: no quote
      inside it closes the literal early. */
  lemma {:induction false} EscapedIsStringText(s: string)
    ensures IsStringText(Escaped(s))
  {
    if s != [] {
      EscapedIsStringText(s[1..]);
      var e := EscapedChar(s[0]);
      assert Escaped(s)[|e|..] == Escaped(s[1..]);
    }
  }

  lemma UnquotedString(text: string)
    ensures Unquoted("\"" + text + "\"") == Unescaped(text)
  {
    var s := "\"" + text + "\"";
    assert Inner(s) == text;
    assert s[0] == '"' && !IsBinary(s) by {
      assert |s| < 3 || s[..3][0] == '"';
      assert |s| < 4 || s[..4][0] == '"';
    }
    if '\\' !in text {
      UnescapedPlain(text);
    }
  }

  /** The quoted-string codec: for every string, the closing quote of its quoted
      form is the last character, and processing the quotes gives it back. */
  lemma QuotedStringRoundTrip(s: string)
    ensures var q := "\"" + Escaped(s) + "\"";
            && CloseSequence(q, 0, '"') == |q| - 1
            && Unquoted(q) == Some(s)
  {
    var q := "\"" + Escaped(s) + "\"";
    assert Inner(q) == Escaped(s);
    EscapedIsStringText(s);
    assert q + [] == q;
    QuotedCloses(q, []);
    UnquotedString(Escaped(s));
    UnescapedEscaped(s);
  }

  lemma UnquotedLiteral(text: string)
    requires '\'' !in text && |text| == 1
    ensures Unquoted("'" + text + "'") == Some(text)
  {
    var s := "'" + text + "'";
    assert Inner(s) == text && |s| == 3;
  }

  lemma UnquotedWord(p: string)
    requires IsWord(p)
    ensures Unquoted(p) == Some(p)
  {
    assert IsWordChar(p[0]);
    if |p| > 1 {
      assert IsWordChar(p[1]);
      assert p[..2] == [p[0], p[1]];
      assert !IsBinary(p) by {
        assert |p| < 3 || p[..3][1] == p[1];
        assert |p| < 4 || p[..4][0] == p[0];
      }
    }
  }
}
