/** The loops of from_config and generate_parents in external/CLI/CLI11.hpp, each
    proved against its function in ConfigReader.  The inner loops are joined to the main
    loop by these functions alone: the main loop calls the function of a whole turn. */
module ConfigLoop {
  import opened Text
  import opened Quoting
  import opened Sections
  import opened ConfigReader

  lemma CommentLinesAt(lines: seq<string>, k: nat, c: char)
    requires k < |lines|
    ensures CommentLines(lines[k..], c) ==
            if EndsTriple(Trim(lines[k]), c) then 1 else 1 + CommentLines(lines[k + 1..], c)
  {
    hide Trim, EndsTriple;
    assert lines[k..][0] == lines[k] && lines[k..][1..] == lines[k + 1..];
  }

  /** The inner loop of a block comment; `i` is the line after its first. */
  method SkipComment(lines: seq<string>, i: nat, c: char) returns (next: nat)
    requires i <= |lines|
    ensures next == i + CommentLines(lines[i..], c)
  {
    hide Trim, EndsTriple;
    next := i;
    while next < |lines|
      invariant i <= next <= |lines|
      invariant next + CommentLines(lines[next..], c) == i + CommentLines(lines[i..], c)
    {
      CommentLinesAt(lines, next, c);
      var done := EndsTriple(Trim(lines[next]), c);
      next := next + 1;
      if done {
        return;
      }
    }
  }

  /** Joining goes on at line `next`, or is done. */
  lemma ArrayTextAt(lines: seq<string>, i: nat, next: nat, text: string)
    requires i <= next <= |lines| && text != []
    ensures Last(text) == ']' || next == |lines| ==> Continued(text, lines, i, next) == (text, next - i)
    ensures Last(text) != ']' && next < |lines| ==>
              Continued(text, lines, i, next) == Continued(text + Trim(lines[next]), lines, i, next + 1)
  {
    hide Trim;
    if next < |lines| {
      assert lines[next..][0] == lines[next] && lines[next..][1..] == lines[next + 1..];
    }
  }

  /** The result of joining that started at line `i` and has reached line `next`. */
  ghost function Continued(text: string, lines: seq<string>, i: nat, next: nat): (string, nat)
    requires i <= next <= |lines| && text != []
  {
    var r := ArrayText(text, lines[next..]);
    (r.0, r.1 + next - i)
  }

  /** The loop that joins the lines of an array. */
  method ReadArray(lines: seq<string>, i: nat, item: string) returns (text: string, next: nat)
    requires i <= |lines| && item != []
    ensures next >= i && (text, next - i) == ArrayText(item, lines[i..])
  {
    hide ArrayText, Trim;
    text, next := item, i;
    while Last(text) != ']' && next < |lines|
      invariant i <= next <= |lines| && text != []
      invariant Continued(text, lines, i, next) == Continued(item, lines, i, i)
      decreases |lines| - next
    {
      ArrayTextAt(lines, i, next, text);
      text := text + Trim(lines[next]);
      next := next + 1;
    }
    ArrayTextAt(lines, i, next, text);
  }

  /** `r` after `n` more lines. */
  function Later(r: Option<(string, nat)>, n: nat): Option<(string, nat)> {
    match r
    case None => None
    case Some((value, m)) => Some((value, m + n))
  }

  lemma MultiLineStep(lines: seq<string>, next: nat, key: char, item: string, extension: bool, first: bool, n: nat)
    requires next < |lines| && !EndsTriple(RTrim(lines[next]), key)
    ensures var (text, more) := ExtendMultiLine(lines[next], item, extension, first);
            Later(MultiLine(lines[next + 1..], key, text, more, false), n + 1)
            == Later(MultiLine(lines[next..], key, item, extension, first), n)
  {
    var rest := lines[next..];
    assert rest[0] == lines[next] && rest[1..] == lines[next + 1..];
  }

  /** The loop that gathers a multi-line value. */
  method ReadMultiLine(lines: seq<string>, i: nat, key: char, start: string, extended: bool)
    returns (r: Option<(string, nat)>)
    requires i <= |lines|
    ensures r == MultiLine(lines[i..], key, start, extended, true)
  {
    hide RTrim, CloseMultiLine, ExtendMultiLine;
    var item, extension, first, next := start, extended, true, i;
    while next < |lines|
      invariant i <= next <= |lines|
      invariant Later(MultiLine(lines[next..], key, item, extension, first), next - i)
             == Later(MultiLine(lines[i..], key, start, extended, true), 0)
    {
      assert lines[next..][0] == lines[next];
      var line := RTrim(lines[next]);
      if EndsTriple(line, key) {
        var value := CloseMultiLine(line, key, item, extension, first);
        if value.None? {
          return None;
        }
        return Some((value.value, next - i + 1));
      }
      MultiLineStep(lines, next, key, item, extension, first, next - i);
      var (text, more) := ExtendMultiLine(lines[next], item, extension, first);
      item, extension, first := text, more, false;
      next := next + 1;
    }
    r := Some((item, next - i));
  }

  /** `r` with `out` before it. */
  function After(out: seq<string>, r: Option<seq<string>>): Option<seq<string>> {
    if r.Some? then Some(out + r.value) else None
  }

  lemma AfterNil(out: seq<string>, r: Option<seq<string>>)
    ensures After([], r) == r && After(out, Some([])) == Some(out)
  {
    assert out + [] == out;
    if r.Some? {
      assert [] + r.value == r.value;
    }
  }

  lemma CleanPartsStep(out: seq<string>, parts: Path, i: nat)
    requires i < |parts|
    ensures After(out, CleanParts(parts[i..])) ==
            if CleanPart(parts[i]).None? then None
            else After(out + [CleanPart(parts[i]).value], CleanParts(parts[i + 1..]))
  {
    var rest := parts[i + 1..];
    assert parts[i..][0] == parts[i] && parts[i..][1..] == rest;
    if CleanPart(parts[i]).Some? && CleanParts(rest).Some? {
      var p, ps := CleanPart(parts[i]).value, CleanParts(rest).value;
      assert out + ([p] + ps) == out + [p] + ps;
    }
  }

  lemma UnquotedAllStep(out: seq<string>, items: seq<string>, i: nat)
    requires i < |items|
    ensures After(out, UnquotedAll(items[i..])) ==
            if Unquoted(items[i]).None? then None
            else After(out + [Unquoted(items[i]).value], UnquotedAll(items[i + 1..]))
  {
    var rest := items[i + 1..];
    assert items[i..][0] == items[i] && items[i..][1..] == rest;
    if Unquoted(items[i]).Some? && UnquotedAll(rest).Some? {
      var v, vs := Unquoted(items[i]).value, UnquotedAll(rest).value;
      assert out + ([v] + vs) == out + [v] + vs;
    }
  }

  /** remove_quotes on a list. */
  method RemoveQuotes(parts: Path) returns (r: Option<Path>)
    ensures r == CleanParts(parts)
  {
    var out := [];
    assert parts[0..] == parts;
    AfterNil(out, CleanParts(parts));
    for i := 0 to |parts|
      invariant After(out, CleanParts(parts[i..])) == CleanParts(parts)
    {
      CleanPartsStep(out, parts, i);
      var part := CleanPart(parts[i]);
      if part.None? {
        return None;
      }
      out := out + [part.value];
    }
    assert parts[|parts|..] == [];
    AfterNil(out, None);
    r := Some(out);
  }

  /** process_quoted_string on every value. */
  method ProcessAll(items: seq<string>) returns (r: Option<seq<string>>)
    ensures r == UnquotedAll(items)
  {
    var out := [];
    assert items[0..] == items;
    AfterNil(out, UnquotedAll(items));
    for i := 0 to |items|
      invariant After(out, UnquotedAll(items[i..])) == UnquotedAll(items)
    {
      UnquotedAllStep(out, items, i);
      var v := Unquoted(items[i]);
      if v.None? {
        return None;
      }
      out := out + [v.value];
    }
    assert items[|items|..] == [];
    AfterNil(out, None);
    r := Some(out);
  }

  /** The loop that closes the sections still open at the end of the file. */
  method CloseFile(rd: Reader) returns (r: Option<seq<ConfigItem>>)
    ensures r == Finish(rd)
  {
    if rd.section == DEFAULT {
      return Some(rd.output);
    }
    var parents := SectionParents(rd.section);
    if parents.None? {
      return None;
    }
    var items := rd.output + [Closing(parents.value)];
    var output := CloseAncestors(items, 2);
    CloseAll(items, output);
    r := Some(output);
  }

  /** The main loop of from_config. */
  method ReadConfig(lines: seq<string>) returns (r: Option<seq<ConfigItem>>)
    ensures r == FromConfig(lines)
  {
    hide ReadOne, Finish;
    var rd := Reader([], DEFAULT);
    var i := 0;
    assert lines[0..] == lines;
    while i < |lines|
      invariant i <= |lines| && ReadAll(rd, lines[i..]) == ReadAll(Reader([], DEFAULT), lines)
      decreases |lines| - i
    {
      var step := ReadOne(rd, lines[i..]);
      if step.None? {
        return None;
      }
      assert lines[i..][step.value.1..] == lines[i + step.value.1..];
      rd := step.value.0;
      i := i + step.value.1;
    }
    r := CloseFile(rd);
  }
}
