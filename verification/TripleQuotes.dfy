/** Values between triple quotes: a long value alone on its line is printed that
    way by convert_arg_for_ini of external/CLI/CLI11.hpp, line breaks included, and
    from_config reads it over several lines. */
module TripleQuotes {
  import opened Text
  import opened Escapes
  import opened BinaryCodec
  import opened Brackets
  import opened Splitting
  import opened Quoting
  import opened Sections
  import opened ConfigReader
  import opened RoundTrip

  // ---------------------------------------------------------------- lines

  /** The lines getline makes of a text that does not end in a line break. */
  function Lines(s: string): (ls: seq<string>)
    ensures ls != [] && forall i | 0 <= i < |ls| :: '\n' !in ls[i]
  {
    var i := Find(s, '\n', 0);
    if i == |s| then [s] else [s[..i]] + Lines(s[i + 1..])
  }

  function JoinLines(ls: seq<string>): string
    requires ls != []
  {
    if |ls| == 1 then ls[0] else ls[0] + "\n" + JoinLines(ls[1..])
  }

  /** Joining undoes splitting. */
  lemma {:induction false} LinesJoined(s: string)
    ensures JoinLines(Lines(s)) == s
    decreases |s|
  {
    var i := Find(s, '\n', 0);
    if i < |s| {
      LinesJoined(s[i + 1..]);
      assert Lines(s)[1..] == Lines(s[i + 1..]);
      assert s == s[..i] + "\n" + s[i + 1..];
    }
  }

  lemma LinesOne(s: string)
    requires '\n' !in s
    ensures Lines(s) == [s]
  {
  }

  lemma LinesStep(a: string, b: string)
    requires '\n' !in a
    ensures Lines(a + "\n" + b) == [a] + Lines(b)
  {
    var s := a + "\n" + b;
    assert forall k | 0 <= k < |a| :: s[k] == a[k];
    assert s[|a|] == '\n';
    assert Find(s, '\n', 0) == |a|;
    assert s[..|a|] == a && s[|a| + 1..] == b;
  }

  /** A text is one line, or a line, a break and more text. */
  lemma Broken(s: string) returns (a: string, b: string)
    requires '\n' in s
    ensures '\n' !in a && s == a + "\n" + b
  {
    var i := Find(s, '\n', 0);
    a, b := s[..i], s[i + 1..];
  }

  lemma LinesBefore(a: string, s: string)
    requires '\n' !in a
    ensures Lines(a + s) == [a + Lines(s)[0]] + Lines(s)[1..]
  {
    hide Lines;
    if '\n' in s {
      var c, d := Broken(s);
      LinesStep(c, d);
      LinesStep(a + c, d);
      assert a + (c + "\n" + d) == a + c + "\n" + d;
      assert ([c] + Lines(d))[1..] == Lines(d);
    } else {
      LinesOne(s);
      LinesOne(a + s);
    }
  }

  /** The lines with text added at the end of the last. */
  function Ended(ls: seq<string>, b: string): seq<string>
    requires ls != []
  {
    DropLast(ls) + [Last(ls) + b]
  }

  lemma {:induction false} LinesAfter(s: string, b: string)
    requires '\n' !in b
    ensures Lines(s + b) == Ended(Lines(s), b)
    decreases |s|
  {
    hide Lines;
    if '\n' in s {
      var c, d := Broken(s);
      LinesAfter(d, b);
      LinesStep(c, d);
      LinesStep(c, d + b);
      assert c + "\n" + d + b == c + "\n" + (d + b);
      EndedCons(c, Lines(d), b);
    } else {
      LinesOne(s);
      LinesOne(s + b);
      assert DropLast([s]) == [];
    }
  }

  lemma EndedCons(a: string, ls: seq<string>, b: string)
    requires ls != []
    ensures Ended([a] + ls, b) == [a] + Ended(ls, b)
  {
    assert DropLast([a] + ls) == [a] + DropLast(ls);
  }

  // ---------------------------------------------------------------- what survives

  predicate EndsIn(s: string, c: char) {
    s != [] && Last(s) == c
  }

  /** The lines after the first come back: none but the last continues its line or
      closes the quotes, and the last is not empty. */
  predicate Gathers(rs: seq<string>)
    requires rs != []
  {
    Last(rs) != [] && forall i | 0 <= i < |rs| - 1 :: !EndsIn(rs[i], '\\') && !EndsTriple(RTrim(rs[i]), '\'')
  }

  /** The text is itself in quotes or in the binary form. */
  predicate IsWrapped(s: string) {
    |s| > 1 && (IsBinary(s) || (IsQuote(s[0]) && s[|s| - 1] == s[0]))
  }

  /** A value between triple quotes comes back: it has a line break; its first and
      last lines are not empty; no line but the last ends in a backslash; no inner line
      ends in triple quotes, blanks aside; and the value is not itself quoted. */
  predicate Survives(v: string) {
    var ls := Lines(v);
    |ls| > 1 && ls[0] != [] && !EndsIn(ls[0], '\\') && Gathers(ls[1..]) && !IsWrapped(v)
  }

  /** Two lines of ordinary text survive. */
  lemma TwoLinesSurvive(a: string, b: string)
    requires a != [] && b != [] && '\n' !in a && '\n' !in b && !EndsIn(a, '\\')
    ensures var v := a + "\n" + b; Lines(v) == [a, b] && (Survives(v) <==> !IsWrapped(v))
  {
    hide IsWrapped, Lines, RTrim;
    LinesStep(a, b);
    LinesOne(b);
    assert [a] + [b] == [a, b] && [a, b][1..] == [b];
  }

  // ---------------------------------------------------------------- gathering

  lemma RTrimEnd(s: string)
    ensures RTrim(s + "'''") == s + "'''" && EndsTriple(s + "'''", '\'') && (s + "'''")[..|s|] == s
  {
    var t := s + "'''";
    assert t[|t| - 1] == '\'' && t[|t| - 2] == '\'' && t[|t| - 3] == '\'';
  }

  predicate NoBreaks(rs: seq<string>) {
    forall i | 0 <= i < |rs| :: '\n' !in rs[i]
  }

  /** The lines of a value with its closing quotes, and the lines after it. */
  function Closed(rs: seq<string>, rest: seq<string>): seq<string>
    requires rs != []
  {
    Ended(rs, "'''") + rest
  }

  lemma ClosedHead(rs: seq<string>, rest: seq<string>)
    requires rs != []
    ensures Closed(rs, rest) != []
    ensures |rs| == 1 ==> Closed(rs, rest)[0] == rs[0] + "'''"
    ensures |rs| > 1 ==> Closed(rs, rest)[0] == rs[0] && Closed(rs, rest)[1..] == Closed(rs[1..], rest)
  {
    if |rs| > 1 {
      assert DropLast(rs)[1..] == DropLast(rs[1..]);
    }
  }

  lemma CloseKept(r: string, item: string, first: bool)
    requires r != [] && '\n' !in r && !(first && item == [])
    ensures CloseMultiLine(r + "'''", '\'', item, false, first) == Some(item + "\n" + r)
  {
    assert (r + "'''")[..|r|] == r;
    var text := item + "\n" + r;
    assert Last(text) == Last(r);
  }

  /** Lines that come back are gathered as they are. */
  lemma {:induction false} Gathered(rs: seq<string>, rest: seq<string>, item: string, first: bool)
    requires rs != [] && NoBreaks(rs) && Gathers(rs) && !(first && item == [])
    ensures MultiLine(Closed(rs, rest), '\'', item, false, first) == Some((item + "\n" + JoinLines(rs), |rs|))
    decreases |rs|
  {
    hide RTrim, Closed, CloseMultiLine;
    var lines := Closed(rs, rest);
    ClosedHead(rs, rest);
    if |rs| == 1 {
      RTrimEnd(rs[0]);
      CloseKept(rs[0], item, first);
    } else {
      assert !EndsIn(rs[0], '\\') && !EndsTriple(RTrim(rs[0]), '\'');
      var text := item + "\n" + rs[0];
      assert ExtendMultiLine(rs[0], item, false, first) == (text, false);
      Gathered(rs[1..], rest, text, false);
      assert text + "\n" + JoinLines(rs[1..]) == item + "\n" + (rs[0] + "\n" + JoinLines(rs[1..]));
    }
  }

  lemma CloseLength(line: string, item: string, extension: bool, first: bool)
    requires |line| >= 3
    ensures var r := CloseMultiLine(line, '\'', item, extension, first);
            && r.Some? && |r.value| <= |item| + 1 + (|line| - 3)
            && (extension || (first && item == []) || |line| == 3 ==> |r.value| < |item| + 1 + (|line| - 3))
  {
    hide LTrim;
  }

  lemma ExtendLength(line: string, item: string, extension: bool, first: bool)
    ensures var (text, more) := ExtendMultiLine(line, item, extension, first);
            && |text| <= |item| + 1 + |line|
            && (extension || (first && item == []) ==> |text| < |item| + 1 + |line|)
            && (EndsIn(line, '\\') && !extension ==> more)
  {
    hide Trim;
  }

  /** Otherwise the gathered text is shorter. */
  lemma {:induction false} GatheredShort(rs: seq<string>, rest: seq<string>, item: string, extension: bool, first: bool)
    returns (raw: string, n: nat)
    requires rs != []
    ensures MultiLine(Closed(rs, rest), '\'', item, extension, first) == Some((raw, n)) && n <= |rs|
    ensures |raw| <= |item| + 1 + |JoinLines(rs)|
    ensures extension || (first && item == []) || !Gathers(rs) ==> |raw| < |item| + 1 + |JoinLines(rs)|
    decreases |rs|
  {
    hide RTrim, Closed, CloseMultiLine, ExtendMultiLine;
    var lines := Closed(rs, rest);
    ClosedHead(rs, rest);
    var line := RTrim(lines[0]);
    if |rs| == 1 {
      RTrimEnd(rs[0]);
      CloseLength(line, item, extension, first);
      raw, n := CloseMultiLine(line, '\'', item, extension, first).value, 1;
    } else if EndsTriple(line, '\'') {
      CloseLength(line, item, extension, first);
      raw, n := CloseMultiLine(line, '\'', item, extension, first).value, 1;
    } else {
      ExtendLength(rs[0], item, extension, first);
      var (text, more) := ExtendMultiLine(rs[0], item, extension, first);
      var m;
      raw, m := GatheredShort(rs[1..], rest, text, more, false);
      n := m + 1;
      if Gathers(rs[1..]) && !EndsIn(rs[0], '\\') {
        GathersStep(rs);
      }
    }
  }

  lemma GathersStep(rs: seq<string>)
    requires |rs| > 1 && Gathers(rs[1..]) && !EndsIn(rs[0], '\\') && !EndsTriple(RTrim(rs[0]), '\'')
    ensures Gathers(rs)
  {
    hide RTrim;
    forall i | 0 <= i < |rs| - 1
      ensures !EndsIn(rs[i], '\\') && !EndsTriple(RTrim(rs[i]), '\'')
    {
      if i > 0 {
        assert rs[i] == rs[1..][i - 1];
      }
    }
  }

  // ---------------------------------------------------------------- unquoting

  lemma EscapeShortens(s: string)
    requires s != [] && s[0] == '\\'
    ensures EscapeAt(s).Some? ==> |EscapeAt(s).value.0| <= EscapeAt(s).value.1
  {
    hide HexValue, AllHex, CharOf;
  }

  lemma {:induction false} UnescapedShortens(s: string)
    ensures Unescaped(s).Some? ==> |Unescaped(s).value| <= |s|
  {
    if s != [] && s[0] != '\\' {
      UnescapedShortens(s[1..]);
    } else if s != [] && EscapeAt(s).Some? {
      hide EscapeAt;
      EscapeShortens(s);
      UnescapedShortens(s[EscapeAt(s).value.1..]);
    }
  }

  lemma {:induction false} DecodedShortens(t: string)
    ensures |Decoded(t)| <= |t|
  {
    if t != [] {
      DecodedShortens(t[if HexAhead(t) then 4 else 1..]);
    }
  }

  /** Processing quotes never makes a text longer, and leaves alone exactly those
      that are in none. */
  lemma UnquotedShortens(s: string)
    ensures Unquoted(s).Some? ==> |Unquoted(s).value| <= |s|
    ensures Unquoted(s) == Some(s) <==> !IsWrapped(s)
  {
    hide Decoded, Unescaped;
    if |s| > 1 && IsBinary(s) {
      var (start, tail) := Frame(s);
      DecodedShortens(s[start..|s| - tail]);
    } else if |s| > 1 {
      UnescapedShortens(Inner(s));
    }
  }

  /** A text with three quotes added never reads as the text itself. */
  lemma TripledNeverReads(v: string)
    requires v != []
    ensures Unquoted(v + "'''") != Some(v)
  {
    var s := v + "'''";
    assert s[|s| - 1] == '\'' && s[|s| - 2] == '\'';
    assert !IsBinary(s) by {
      assert s[|s| - 2..][1] == '\'';
      assert s[|s| - 3..][1] == '\'';
    }
  }

  // ---------------------------------------------------------------- the line of the opening quotes

  lemma {:induction false} RTrimBehind(a: string, b: string)
    requires a != [] && !IsSpace(a[|a| - 1])
    ensures RTrim(a + b) == a + RTrim(b)
    decreases |b|
  {
    if b == [] {
      assert a + b == a;
    } else {
      assert (a + b)[..|a + b| - 1] == a + b[..|b| - 1];
      if IsSpace(b[|b| - 1]) {
        RTrimBehind(a, b[..|b| - 1]);
      }
    }
  }

  /** What the loop makes of the text after the opening quotes and the next lines. */
  function GatheredFrom(text: string, lines: seq<string>): Option<(string, nat)> {
    if EndsIn(text, '\\') then MultiLine(lines, '\'', DropLast(text), true, true)
    else MultiLine(lines, '\'', text, false, true)
  }

  lemma SeenShape(text: string)
    ensures var seen := "'''" + RTrim(text);
            Trimmed(seen) && IsTriple(seen) && seen[0] == '\'' && !IsSpace(seen[|seen| - 1])
  {
    var r := RTrim(text);
    var seen := "'''" + r;
    assert seen[..3] == "'''";
    assert seen[|seen| - 1] == if r == [] then '\'' else r[|r| - 1];
  }

  lemma OpeningTrims(keys: Path, text: string)
    requires IsKey(keys)
    ensures var buffer, line := KeyLine(keys, "'''" + text), KeyLine(keys, "'''" + RTrim(text));
            Trim(buffer) == line && |line| <= |buffer|
  {
    hide Dotted, IsKey, RTrim, KeyLine, Trim;
    var front := Dotted(keys) + "='''";
    assert front[|front| - 1] == '\'';
    RTrimBehind(front, text);
    FrontOf(keys, text);
    FrontOf(keys, RTrim(text));
    LineTrims(keys, "'''" + RTrim(text), KeyLine(keys, "'''" + text));
  }

  lemma OpeningCut(keys: Path, text: string)
    ensures var buffer, n := KeyLine(keys, "'''" + text), |Dotted(keys)|;
            n < |buffer| && AfterTriple(buffer, n) == text
  {
    hide Dotted;
    var item := "'''" + text;
    assert KeyLine(keys, item)[|Dotted(keys)| + 1..] == item;
    assert LTrim(item) == item && item[3..] == text;
  }

  lemma LineTrims(keys: Path, seen: string, buffer: string)
    requires IsKey(keys) && RTrim(buffer) == KeyLine(keys, seen)
    ensures Trim(buffer) == KeyLine(keys, seen)
  {
    hide Dotted, IsKey, RTrim;
    KeyShape(keys);
    assert KeyLine(keys, seen)[0] == Dotted(keys)[0];
  }

  lemma TripleRaw(keys: Path, text: string, lines: seq<string>)
    requires IsKey(keys)
    ensures var buffer := KeyLine(keys, "'''" + text);
            && IsEntryLine(Trim(buffer))
            && RawEntry(buffer, lines) ==
               match GatheredFrom(text, lines)
               case None => None
               case Some((value, n)) => Some(Raw(Dotted(keys), [value], n))
  {
    hide Dotted, IsKey, Trim, RTrim, Trimmed, IsTriple, IsEntryLine, MultiLine, DelimiterAt, AfterTriple, ValueText;
    hide PlainText, KeyLine;
    SeenShape(text);
    KeyLineShape(keys, "'''" + RTrim(text));
    OpeningTrims(keys, text);
    OpeningCut(keys, text);
    KeyLineDelimiter(keys, "'''" + RTrim(text));
    KeyLineParts(keys, "'''" + RTrim(text));
    KeyLineLong(keys, "'''" + RTrim(text));
  }

  lemma KeyLineLong(keys: Path, text: string)
    ensures |Dotted(keys)| < |KeyLine(keys, text)|
  {
  }

  // ---------------------------------------------------------------- reading a value

  function Tripled(v: string): string {
    "'''" + v + "'''"
  }

  lemma FramedLines(front: string, v: string)
    requires '\n' !in front
    ensures var ls := Lines(v);
            Lines(front + (v + "'''")) ==
            if |ls| == 1 then [front + (v + "'''")] else [front + ls[0]] + Ended(ls[1..], "'''")
  {
    hide Lines;
    LinesBefore(front, v + "'''");
    LinesAfter(v, "'''");
    LinesJoined(v);
    var ls := Lines(v);
    var es := Ended(ls, "'''");
    if |ls| == 1 {
      assert es == [v + "'''"];
    } else {
      assert es[0] == ls[0];
      assert es[1..] == Ended(ls[1..], "'''");
    }
  }

  lemma FrontOf(keys: Path, text: string)
    ensures KeyLine(keys, "'''" + text) == Dotted(keys) + "='''" + text
  {
  }

  /** The lines a value between triple quotes is printed on. */
  lemma TripledLines(keys: Path, v: string)
    requires IsKey(keys)
    ensures var ls := Lines(v);
            Lines(KeyLine(keys, Tripled(v))) ==
            if |ls| == 1 then [KeyLine(keys, "'''" + (v + "'''"))]
            else [KeyLine(keys, "'''" + ls[0])] + Ended(ls[1..], "'''")
  {
    hide Dotted, IsKey, Lines, KeyLine, Ended;
    KeyHasNoBreak(keys);
    var ls := Lines(v);
    assert Tripled(v) == "'''" + (v + "'''");
    FrontOf(keys, v + "'''");
    FrontOf(keys, ls[0]);
    FramedLines(Dotted(keys) + "='''", v);
  }

  lemma SeveralLines(keys: Path, v: string, rest: seq<string>)
    requires IsKey(keys) && |Lines(v)| > 1
    ensures var ls, printed := Lines(v), Lines(KeyLine(keys, Tripled(v)));
            && |printed| == |ls|
            && printed + rest == [KeyLine(keys, "'''" + ls[0])] + Closed(ls[1..], rest)
  {
    hide Lines, KeyLine, Tripled, IsKey;
    TripledLines(keys, v);
    Assoc([KeyLine(keys, "'''" + Lines(v)[0])], Ended(Lines(v)[1..], "'''"), rest);
  }

  lemma KeyHasNoBreak(keys: Path)
    requires IsKey(keys)
    ensures '\n' !in Dotted(keys)
  {
    KeyChars(keys);
  }

  /** A value that survives is gathered whole, whatever comes after it. */
  lemma SurvivorGathered(v: string, rest: seq<string>)
    requires Survives(v)
    ensures var ls := Lines(v); GatheredFrom(ls[0], Closed(ls[1..], rest)) == Some((v, |ls| - 1))
  {
    hide Gathers, Closed;
    var ls := Lines(v);
    LinesJoined(v);
    Gathered(ls[1..], rest, ls[0], true);
  }

  /** Another one is not. */
  lemma OtherGathered(v: string) returns (raw: string, n: nat)
    requires |Lines(v)| > 1 && !Survives(v)
    ensures GatheredFrom(Lines(v)[0], Closed(Lines(v)[1..], [])) == Some((raw, n)) && Unquoted(raw) != Some(v)
  {
    hide Gathers, Closed, Unquoted, IsWrapped;
    var ls := Lines(v);
    LinesJoined(v);
    if EndsIn(ls[0], '\\') {
      raw, n := GatheredShort(ls[1..], [], DropLast(ls[0]), true, true);
    } else {
      raw, n := GatheredShort(ls[1..], [], ls[0], false, true);
      if ls[0] != [] && Gathers(ls[1..]) {
        Gathered(ls[1..], [], ls[0], true);
      }
    }
    UnquotedShortens(raw);
  }

  lemma UnquotedOne(raw: string)
    ensures UnquotedAll([raw]) == if Unquoted(raw).None? then None else Some([Unquoted(raw).value])
  {
    hide Unquoted;
    assert [raw][1..] == [];
    assert UnquotedAll([]) == Some([]);
    if Unquoted(raw).Some? {
      assert [Unquoted(raw).value] + [] == [Unquoted(raw).value];
    }
  }

  /** Reading an entry whose value is gathered from the text after its opening quotes. */
  lemma ReadGathered(rd: Reader, path: Path, keys: Path, text: string, lines: seq<string>, raw: string, n: nat)
    requires (path == [] || IsSection(path)) && rd.section == SectionText(path) && IsKey(keys)
    requires GatheredFrom(text, lines) == Some((raw, n))
    ensures ReadOne(rd, [KeyLine(keys, "'''" + text)] + lines) ==
            if Unquoted(raw).None? then None else Some((Stored(rd, path, keys, [Unquoted(raw).value]), 1 + n))
  {
    hide ReadOne, RawEntry, IsSection, IsKey, IsEntryLine, Trim, AddEntry, Stored, GatheredFrom, Unquoted, UnquotedAll, KeyLine;
    var whole := [KeyLine(keys, "'''" + text)] + lines;
    assert whole[1..] == lines;
    TripleRaw(keys, text, lines);
    ReadEntryLine(rd, whole, Raw(Dotted(keys), [raw], n));
    AddKeyEntry(rd, path, keys, [raw]);
    UnquotedOne(raw);
  }

  lemma SurvivorUnquoted(v: string)
    requires Survives(v)
    ensures |Lines(v)| > 1 && Unquoted(v) == Some(v)
  {
    hide Unquoted, IsWrapped, Gathers;
    UnquotedShortens(v);
  }

  /** A value that survives is read back, wherever it stands in a file. */
  lemma ReadTripled(rd: Reader, path: Path, keys: Path, v: string, rest: seq<string>)
    requires (path == [] || IsSection(path)) && rd.section == SectionText(path) && IsKey(keys) && Survives(v)
    ensures var ls := Lines(KeyLine(keys, Tripled(v)));
            ReadOne(rd, ls + rest) == Some((Stored(rd, path, keys, [v]), |ls|))
  {
    hide ReadOne, IsSection, IsKey, Stored, GatheredFrom, Unquoted, KeyLine, Lines, Survives, Closed, Tripled, SectionText;
    var ls := Lines(v);
    SurvivorUnquoted(v);
    SeveralLines(keys, v, rest);
    SurvivorGathered(v, rest);
    ReadGathered(rd, path, keys, ls[0], Closed(ls[1..], rest), v, |ls| - 1);
  }

  /** Closing quotes on the opening line are not seen. */
  lemma NothingGathered(v: string)
    ensures GatheredFrom(v + "'''", []) == Some((v + "'''", 0))
  {
    assert Last(v + "'''") == '\'';
  }

  /** Another one, alone in a file, is not. */
  lemma ReadOther(rd: Reader, path: Path, keys: Path, v: string) returns (raw: string, n: nat)
    requires (path == [] || IsSection(path)) && rd.section == SectionText(path) && IsKey(keys)
    requires v != [] && !Survives(v)
    ensures Unquoted(raw) != Some(v)
    ensures ReadOne(rd, Lines(KeyLine(keys, Tripled(v)))) ==
            if Unquoted(raw).None? then None else Some((Stored(rd, path, keys, [Unquoted(raw).value]), 1 + n))
  {
    hide ReadOne, IsSection, IsKey, Stored, Unquoted, KeyLine, Lines, Survives, Tripled, Closed, SectionText;
    hide GatheredFrom;
    var ls := Lines(v);
    if |ls| == 1 {
      raw, n := v + "'''", 0;
      TripledLines(keys, v);
      NothingGathered(v);
      ReadGathered(rd, path, keys, raw, [], raw, 0);
      TripledNeverReads(v);
      assert [KeyLine(keys, "'''" + raw)] + [] == [KeyLine(keys, "'''" + raw)];
    } else {
      raw, n := OtherGathered(v);
      SeveralLines(keys, v, []);
      ReadGathered(rd, path, keys, ls[0], Closed(ls[1..], []), raw, n);
      assert Lines(KeyLine(keys, Tripled(v))) + [] == Lines(KeyLine(keys, Tripled(v)));
    }
  }
}
