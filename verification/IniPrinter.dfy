/** The value printer convert_arg_for_ini and ini_join of external/CLI/CLI11.hpp,
    at the default settings of ConfigBase. */
module IniPrinter {
  import opened Text
  import opened Escapes
  import opened Brackets
  import opened BinaryCodec
  import opened Splitting
  import opened Quoting

  predicate IsReserved(arg: string) {
    arg == "true" || arg == "false" || arg == "nan" || arg == "inf"
  }

  predicate IsNumeric(arg: string) {
    forall i | 0 <= i < |arg| :: IsDigit(arg[i]) || arg[i] == '.' || arg[i] == '-' || arg[i] == '+'
                                 || arg[i] == 'e' || arg[i] == 'E'
  }

  /** The text does not start with 0x, converts to a double and has only characters of numbers. */
  predicate IsNumber(arg: string, toDouble: string -> bool) {
    !("0x" <= arg) && !("0X" <= arg) && toDouble(arg) && IsNumeric(arg)
  }

  /** Hexadecimal, octal or binary notation. */
  predicate IsRadix(arg: string) {
    |arg| >= 2 && arg[0] == '0' &&
    if arg[1] == 'x' then forall i | 2 <= i < |arg| :: IsHex(arg[i])
    else if arg[1] == 'o' then forall i | 2 <= i < |arg| :: '0' <= arg[i] <= '7'
    else arg[1] == 'b' && forall i | 2 <= i < |arg| :: arg[i] == '0' || arg[i] == '1'
  }

  predicate IsPrintable(arg: string) {
    forall i | 0 <= i < |arg| :: IsPrint(arg[i]) || arg[i] == '\n' || arg[i] == '\t'
  }

  /** Values written as they are. */
  predicate IsBare(arg: string, toDouble: string -> bool) {
    arg != [] && (IsReserved(arg) || IsNumber(arg, toDouble) || (|arg| > 1 && IsRadix(arg)))
  }

  /** Values written in the binary form. */
  predicate IsBinaryForm(arg: string, toDouble: string -> bool) {
    arg != [] && !IsBare(arg, toDouble) && (if |arg| == 1 then !IsPrint(arg[0]) else !IsPrintable(arg))
  }

  /** Values that, alone on their line, are written between triple quotes. */
  predicate IsMultiLineForm(arg: string, toDouble: string -> bool) {
    !IsBare(arg, toDouble) && IsPrintable(arg) && HasEscapable(arg) && |arg| > 100
  }

  /** convert_arg_for_ini. */
  function Converted(arg: string, toDouble: string -> bool, noMultiLine: bool): string
    requires Octets(arg)
  {
    if arg == [] then "\"\""
    else if IsReserved(arg) then arg
    else if IsNumber(arg, toDouble) then arg
    else if |arg| == 1 then
      if !IsPrint(arg[0]) then BinaryEscaped(arg)
      else if arg == "'" then "\"'\""
      else "'" + arg + "'"
    else if IsRadix(arg) then arg
    else if !IsPrintable(arg) then BinaryEscaped(arg)
    else if HasEscapable(arg) then
      if |arg| > 100 && !noMultiLine then "'''" + arg + "'''" else "\"" + Escaped(arg) + "\""
    else "\"" + arg + "\""
  }

  function ConvertedAll(args: seq<string>, toDouble: string -> bool, noMultiLine: bool): (r: seq<string>)
    requires forall i | 0 <= i < |args| :: Octets(args[i])
    ensures |r| == |args|
    ensures forall i | 0 <= i < |args| :: r[i] == Converted(args[i], toDouble, noMultiLine)
  {
    seq(|args|, i requires 0 <= i < |args| => Converted(args[i], toDouble, noMultiLine))
  }

  /** ini_join: more than one value makes a bracketed array. */
  function IniJoined(args: seq<string>, toDouble: string -> bool): string
    requires forall i | 0 <= i < |args| :: Octets(args[i])
  {
    if |args| > 1 then "[" + Joined(ConvertedAll(args, toDouble, true)) + "]"
    else Joined(ConvertedAll(args, toDouble, false))
  }

  method IniJoin(args: seq<string>, toDouble: string -> bool) returns (joined: string)
    requires forall i | 0 <= i < |args| :: Octets(args[i])
    ensures joined == IniJoined(args, toDouble)
  {
    hide Converted, Joined;
    var noMultiLine := false;
    joined := [];
    if |args| > 1 {
      joined := joined + "[";
      noMultiLine := true;
    }
    ghost var ps := ConvertedAll(args, toDouble, noMultiLine);
    ghost var open := joined;
    JoinedNil(ps);
    for i := 0 to |args|
      invariant joined == open + Joined(ps[..i])
    {
      JoinedSnoc(ps, i);
      if i > 0 {
        joined := joined + ", ";
      }
      joined := joined + Converted(args[i], toDouble, noMultiLine);
    }
    assert ps[..|args|] == ps;
    if |args| > 1 {
      joined := joined + "]";
    }
  }

  lemma JoinedNil(ps: seq<string>)
    ensures Joined(ps[..0]) == []
  {
  }

  /** Joining one more value at the end. */
  lemma {:induction false} JoinedSnoc(ps: seq<string>, i: nat)
    requires i < |ps|
    ensures Joined(ps[..i + 1]) == Joined(ps[..i]) + (if i > 0 then ", " else "") + ps[i]
    decreases |ps|
  {
    if i > 0 {
      var t := ps[1..];
      JoinedSnoc(t, i - 1);
      assert ps[..i + 1][1..] == t[..i] && ps[..i][1..] == t[..i - 1];
      if i == 1 {
        assert ps[..1] == [ps[0]];
        assert t[..1] == [ps[1]];
      }
    }
  }

  // ---------------------------------------------------------------- reading back

  /** What the reader gets for a value. */
  function ReadBack(arg: string, toDouble: string -> bool): string
    requires Octets(arg)
  {
    if IsBinaryForm(arg, toDouble) then Decoded(FixQuotes(Body(arg))) else arg
  }

  /** The value comes back unchanged: the condition of the binary codec, where it is used. */
  predicate IsFaithful(arg: string, toDouble: string -> bool) {
    IsBinaryForm(arg, toDouble) ==> NoHexText(arg) && QuotesAtEnds(arg)
  }

  lemma ReadBackFaithful(arg: string, toDouble: string -> bool)
    requires Octets(arg)
    ensures ReadBack(arg, toDouble) == arg <==> IsFaithful(arg, toDouble)
  {
    if IsBinaryForm(arg, toDouble) {
      DecodedFixQuotes(arg);
    }
  }

  lemma BareIsWord(arg: string, toDouble: string -> bool)
    requires IsBare(arg, toDouble)
    ensures IsWord(arg)
  {
    if !IsReserved(arg) && !IsNumber(arg, toDouble) {
      assert IsRadix(arg);
      forall i | 0 <= i < |arg|
        ensures IsWordChar(arg[i])
      {
      }
    }
  }

  lemma QuotedForm(text: string, arg: string)
    requires IsStringText(text) && Unescaped(text) == Some(arg)
    ensures IsAtom("\"" + text + "\"") && Unquoted("\"" + text + "\"") == Some(arg)
  {
    var p := "\"" + text + "\"";
    assert Inner(p) == text;
    assert IsQuotedText(p);
    UnquotedString(text);
  }

  lemma EscapedForm(arg: string)
    ensures IsAtom("\"" + Escaped(arg) + "\"") && Unquoted("\"" + Escaped(arg) + "\"") == Some(arg)
  {
    EscapedIsStringText(arg);
    UnescapedEscaped(arg);
    QuotedForm(Escaped(arg), arg);
  }

  lemma LiteralForm(arg: string)
    requires |arg| == 1 && arg != "'"
    ensures IsAtom("'" + arg + "'") && Unquoted("'" + arg + "'") == Some(arg)
  {
    var p := "'" + arg + "'";
    assert arg == [arg[0]];
    assert Inner(p) == arg && IsQuotedText(p);
    UnquotedLiteral(arg);
  }

  lemma LiteralQuoted(text: string)
    requires '\'' !in text
    ensures IsQuotedText("'" + text + "'")
  {
    var p := "'" + text + "'";
    assert Inner(p) == text;
  }

  lemma BinaryForm(arg: string)
    requires Octets(arg) && !AllPrint(arg)
    ensures IsAtom(BinaryEscaped(arg))
    ensures Unquoted(BinaryEscaped(arg)) == Some(Decoded(FixQuotes(Body(arg))))
  {
    hide IsQuotedText, Extracted, IsBinary, Decoded;
    BodyPrintable(arg);
    var t := FixQuotes(Body(arg));
    FixQuotesPrintable(Body(arg));
    var inner := "B\"(" + t + ")\"";
    assert '\'' !in inner;
    LiteralQuoted(inner);
    assert "'" + inner + "'" == "'B\"(" + t + ")\"'";
    ExtractedFramed(t);
  }

  lemma PlainEscaped(arg: string)
    requires !HasEscapable(arg)
    ensures "\"" + arg + "\"" == "\"" + Escaped(arg) + "\""
  {
    EscapedPlain(arg);
  }

  /** Every printed value, other than a lone one between triple quotes, is one
      atom, and processing its quotes gives what the reader gets. */
  lemma ConvertedForm(arg: string, toDouble: string -> bool, noMultiLine: bool)
    requires Octets(arg) && (noMultiLine || !IsMultiLineForm(arg, toDouble))
    ensures var p := Converted(arg, toDouble, noMultiLine);
            IsAtom(p) && Unquoted(p) == Some(ReadBack(arg, toDouble))
  {
    if arg == [] {
      EscapedForm(arg);
      assert "\"" + Escaped([]) + "\"" == "\"\"";
    } else if IsBare(arg, toDouble) {
      BareIsWord(arg, toDouble);
      UnquotedWord(arg);
    } else if IsBinaryForm(arg, toDouble) {
      assert !AllPrint(arg);
      BinaryForm(arg);
    } else if |arg| == 1 {
      if arg == "'" {
        assert !HasEscapable(arg);
        PlainEscaped(arg);
        EscapedForm(arg);
        assert "\"" + arg + "\"" == "\"'\"";
      } else {
        LiteralForm(arg);
      }
    } else {
      EscapedForm(arg);
      if !HasEscapable(arg) {
        PlainEscaped(arg);
      }
    }
  }
}
