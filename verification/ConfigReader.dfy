/** The config reader from_config of external/CLI/CLI11.hpp, at the default
    settings of ConfigBase and without a section filter.  Input is the sequence of
    lines getline would return. */
module ConfigReader {
  import opened Text
  import opened Escapes
  import opened Brackets
  import opened Splitting
  import opened Quoting
  import opened Sections

  const DEFAULT := "default"

  // ---------------------------------------------------------------- parents

  function LowerChar(c: char): char {
    if 'A' <= c <= 'Z' then (c as int + 32) as char else c
  }

  function ToLower(s: string): (r: string)
    ensures |r| == |s| && forall i | 0 <= i < |s| :: r[i] == LowerChar(s[i])
  {
    seq(|s|, i requires 0 <= i < |s| => LowerChar(s[i]))
  }

  /** One element of remove_quotes on a list; None where the source throws. */
  function CleanPart(part: string): Option<string> {
    if part == [] then Some(part)
    else if part[0] == '"' && Last(part) == '"' then Unescaped(if |part| > 1 then Inner(part) else part)
    else if |part| > 1 && IsQuote(part[0]) && Last(part) == part[0] then Some(Inner(part))
    else Some(part)
  }

  function CleanParts(parts: Path): (r: Option<Path>)
    ensures r.Some? ==> |r.value| == |parts|
  {
    if parts == [] then Some([])
    else
      match (CleanPart(parts[0]), CleanParts(parts[1..]))
      case (Some(p), Some(ps)) => Some([p] + ps)
      case _ => None
  }

  lemma DottedSplits(s: string, c: char)
    requires c in s && !IsSpace(c)
    ensures Trim(s) != [] && SplitUp(s, '.') != []
  {
    TrimKeeps(s, c);
  }

  lemma TrimKeeps(s: string, c: char)
    requires c in s && !IsSpace(c)
    ensures c in Trim(s)
  {
    RTrimKeeps(s, c);
    LTrimKeeps(RTrim(s), c);
  }

  lemma {:induction false} LTrimKeeps(s: string, c: char)
    requires c in s && !IsSpace(c)
    ensures c in LTrim(s)
  {
    if s != [] && IsSpace(s[0]) {
      LTrimKeeps(s[1..], c);
    }
  }

  lemma {:induction false} RTrimKeeps(s: string, c: char)
    requires c in s && !IsSpace(c)
    ensures c in RTrim(s)
  {
    if s != [] && IsSpace(s[|s| - 1]) {
      RTrimKeeps(s[..|s| - 1], c);
    }
  }

  function SectionParts(section: string): (r: Path)
    ensures r == [] <==> ToLower(section) == DEFAULT
  {
    if ToLower(section) == DEFAULT then []
    else if '.' in section then
      DottedSplits(section, '.');
      SplitUp(section, '.')
    else [section]
  }

  /** The parts of a key before its last dot, and what follows it. */
  function NameParts(name: string): (Path, string) {
    if '.' in name then
      DottedSplits(name, '.');
      var parts := SplitUp(name, '.');
      (DropLast(parts), Last(parts))
    else ([], name)
  }

  /** generate_parents: the parents of a key in a section, and the key's own name. */
  function GenerateParents(section: string, name: string): Option<(Path, string)> {
    var (more, last) := NameParts(name);
    match CleanParts(SectionParts(section) + more)
    case None => None
    case Some(parents) => Some((parents, last))
  }

  function SectionParents(section: string): (r: Option<Path>)
    ensures r.Some? ==> (r.value == [] <==> ToLower(section) == DEFAULT)
  {
    match GenerateParents(section, [])
    case None => None
    case Some((parents, _)) => Some(parents)
  }

  // ---------------------------------------------------------------- the parts of a line

  predicate HasQuote(line: string) {
    exists i :: 0 <= i < |line| && IsQuote(line[i])
  }

  /** Where the search for the value delimiter starts, past quoted parts of the
      key; -1 stands for npos, so that one past it is the start of the line. */
  function SearchStart(line: string, i: nat): (r: int)
    ensures r >= -1
    decreases |line| - i
  {
    if i >= |line| then i
    else if IsQuote(line[i]) then SearchStart(line, CloseSequence(line, i, line[i]) + 1)
    else if line[i] == '=' || line[i] == '#' then i - 1
    else if line[i] == ' ' || line[i] == '\t' || line[i] == '.' then SearchStart(line, i + 1)
    else
      var next := FindAny(line, {'.', '#', '='}, i);
      if next == |line| then -1 else SearchStart(line, next)
  }

  function LineStart(line: string): (r: int)
    ensures r >= -1
  {
    if HasQuote(line) then SearchStart(line, 0) else 0
  }

  method FindLineStart(line: string) returns (start: int)
    ensures start == LineStart(line)
  {
    start := 0;
    if HasQuote(line) {
      while start < |line|
        invariant start >= 0 && SearchStart(line, start) == SearchStart(line, 0)
        decreases |line| - start
      {
        var c := line[start];
        if IsQuote(c) {
          start := CloseSequenceLoop(line, start, c);
          start := start + 1;
        } else if c == '=' || c == '#' {
          return start - 1;
        } else if c == ' ' || c == '\t' || c == '.' {
          start := start + 1;
        } else {
          start := FindAny(line, {'.', '#', '='}, start);
          if start == |line| {
            return -1;
          }
        }
      }
    }
  }

  /** The positions of the comment and of the value delimiter, the latter only if
      it comes before the comment; the length of the line if there is none. */
  function CommentAt(line: string): (r: nat)
    ensures r <= |line|
  {
    var start := LineStart(line);
    if start < 0 then |line| else Find(line, '#', start)
  }

  function DelimiterAt(line: string): (r: nat)
    ensures r <= |line|
  {
    var at := Find(line, '=', LineStart(line) + 1);
    if CommentAt(line) < at then |line| else at
  }

  predicate IsTriple(s: string) {
    "\"\"\"" <= s || "'''" <= s
  }

  /** hasMLString. */
  predicate EndsTriple(s: string, c: char) {
    |s| >= 3 && s[|s| - 1] == c && s[|s| - 2] == c && s[|s| - 3] == c
  }

  /** How many lines a block comment takes after its first. */
  function CommentLines(lines: seq<string>, c: char): (n: nat)
    ensures n <= |lines|
  {
    if lines == [] then 0
    else if EndsTriple(Trim(lines[0]), c) then 1
    else 1 + CommentLines(lines[1..], c)
  }

  /** The value text without a trailing comment. */
  function WithoutComment(item: string): string {
    var parts := SplitUp(item, '#');
    if parts == [] then item else Trim(parts[0])
  }

  /** An array that goes on over the next lines, and how many of them it takes. */
  function ArrayText(item: string, lines: seq<string>): (r: (string, nat))
    requires item != []
    ensures r.0 != [] && r.0[0] == item[0] && |r.0| >= |item| && r.1 <= |lines|
    decreases |lines|
  {
    if Last(item) == ']' || lines == [] then (item, 0)
    else
      var (text, n) := ArrayText(item + Trim(lines[0]), lines[1..]);
      (text, n + 1)
  }

  /** The values in an array text. */
  function ArrayItems(text: string): seq<string>
    requires |text| > 1
  {
    if Last(text) == ']' then SplitUp(Inner(text), ',') else SplitUp(text[1..], ',')
  }

  /** The values in a text that is not an array. */
  function FlatItems(item: string): seq<string> {
    if ',' in item then SplitUp(item, ',')
    else if ' ' in item then SplitUp(item, NUL)
    else [item]
  }

  function NewLineIf(item: string, extension: bool, first: bool): string {
    if !extension && !(first && item == []) then item + "\n" else item
  }

  /** The last line of a multi-line value, up to its closing quotes. */
  function CloseMultiLine(line: string, key: char, item: string, extension: bool, first: bool): Option<string>
    requires |line| >= 3
  {
    var body := line[..|line| - 3];
    var text := NewLineIf(item, extension, first) + (if extension then LTrim(body) else body);
    var value := if text != [] && Last(text) == '\n' then DropLast(text) else text;
    if key == '"' then Unescaped(value) else Some(value)
  }

  /** One more line of a multi-line value, and whether it ends in a line extension. */
  function ExtendMultiLine(line: string, item: string, extension: bool, first: bool): (string, bool) {
    var body := if extension then Trim(line) else line;
    var text := NewLineIf(item, extension, first);
    if body != [] && Last(body) == '\\' then (text + DropLast(body), true) else (text + body, false)
  }

  /** A multi-line value and how many lines it takes; None where the source throws. */
  function MultiLine(lines: seq<string>, key: char, item: string, extension: bool, first: bool): (r: Option<(string, nat)>)
    ensures r.Some? ==> r.value.1 <= |lines|
    decreases |lines|
  {
    if lines == [] then Some((item, 0))
    else if EndsTriple(RTrim(lines[0]), key) then
      match CloseMultiLine(RTrim(lines[0]), key, item, extension, first)
      case None => None
      case Some(value) => Some((value, 1))
    else
      var (text, more) := ExtendMultiLine(lines[0], item, extension, first);
      match MultiLine(lines[1..], key, text, more, false)
      case None => None
      case Some((value, n)) => Some((value, n + 1))
  }

  /** The text after the opening quotes, cut out of the untrimmed line. */
  function AfterTriple(buffer: string, at: nat): string
    requires at < |buffer|
  {
    var item := LTrim(buffer[at + 1..]);
    if |item| >= 3 then item[3..] else []
  }

  /** The raw key, the raw values and the number of further lines of an entry. */
  datatype Raw = Raw(name: string, items: seq<string>, extra: nat)

  /** The value that starts with triple quotes after position `at` of the line. */
  function TripleValue(buffer: string, at: nat, key: char, lines: seq<string>): (r: Option<(string, nat)>)
    requires at < |buffer|
    ensures r.Some? ==> r.value.1 <= |lines|
  {
    var text := AfterTriple(buffer, at);
    if text != [] && Last(text) == '\\' then MultiLine(lines, key, DropLast(text), true, true)
    else MultiLine(lines, key, text, false, true)
  }

  /** The values of an entry whose value is not between triple quotes. */
  function PlainItems(value: string, lines: seq<string>): (r: (seq<string>, nat))
    ensures r.1 <= |lines|
  {
    if |value| > 1 && value[0] == '[' then
      var (text, n) := ArrayText(value, lines);
      (ArrayItems(text), n)
    else
      (FlatItems(value), 0)
  }

  function ValueText(line: string, at: nat): string
    requires at < |line|
  {
    Trim(line[at + 1..])
  }

  /** The value text, cut at a comment. */
  function PlainText(line: string, at: nat): string
    requires at < |line|
  {
    var item := ValueText(line, at);
    if CommentAt(line) < |line| then WithoutComment(item) else item
  }

  function RawValue(buffer: string, line: string, at: nat, lines: seq<string>): (r: Option<Raw>)
    requires at < |line| <= |buffer|
    ensures r.Some? ==> r.value.extra <= |lines|
  {
    var item := ValueText(line, at);
    if IsTriple(item) then
      match TripleValue(buffer, at, item[0], lines)
      case None => None
      case Some((value, n)) => Some(Raw(Trim(line[..at]), [value], n))
    else
      var (items, n) := PlainItems(PlainText(line, at), lines);
      Some(Raw(Trim(line[..at]), items, n))
  }

  /** A key line: with a value, or without one, which means true. */
  function RawEntry(buffer: string, lines: seq<string>): (r: Option<Raw>)
    ensures r.Some? ==> r.value.extra <= |lines|
  {
    var line := Trim(buffer);
    var at := DelimiterAt(line);
    if at < |line| then RawValue(buffer, line, at, lines)
    else Some(Raw(Trim(line[..CommentAt(line)]), ["true"], 0))
  }

  function UnquotedAll(items: seq<string>): Option<seq<string>> {
    if items == [] then Some([])
    else
      match (Unquoted(items[0]), UnquotedAll(items[1..]))
      case (Some(v), Some(vs)) => Some([v] + vs)
      case _ => None
  }

  // ---------------------------------------------------------------- the reader

  /** The items so far and the text of the current section's header. */
  datatype Reader = Reader(output: seq<ConfigItem>, section: string)

  function AddEntry(rd: Reader, name: string, items: seq<string>): Option<Reader> {
    match GenerateParents(rd.section, name)
    case None => None
    case Some((parents, last)) =>
      match (Unquoted(last), UnquotedAll(items))
      case (Some(key), Some(values)) =>
        if |parents| > MAXIMUM_LAYERS then Some(rd)
        else Some(rd.(output := AddItem(rd.output, parents, key, values)))
      case _ => None
  }

  /** The text between the brackets of a header, single or double. */
  function HeaderText(line: string): string
    requires |line| >= 3
  {
    var text := Inner(line);
    if |text| > 1 && text[0] == '[' && Last(text) == ']' then Inner(text) else text
  }

  /** The items after the current section is left. */
  function Left(rd: Reader): Option<seq<ConfigItem>> {
    if rd.section == DEFAULT then Some(rd.output)
    else
      match SectionParents(rd.section)
      case None => None
      case Some(parents) => Some(rd.output + [Closing(parents)])
  }

  function EnterSection(rd: Reader, text: string): Option<Reader> {
    match Left(rd)
    case None => None
    case Some(output) =>
      if ToLower(text) == DEFAULT then Some(Reader(output, DEFAULT))
      else
        match SectionParents(text)
        case None => None
        case Some(parents) => Some(Reader(WithSection(output, parents), text))
  }

  predicate IsHeader(line: string) {
    |line| >= 3 && line[0] == '[' && Last(line) == ']'
  }

  predicate IsComment(line: string) {
    line != [] && (line[0] == ';' || line[0] == '#')
  }

  /** One turn of the main loop: the state after the first of the lines and the
      number of lines used; None where the source throws. */
  function ReadOne(rd: Reader, lines: seq<string>): (r: Option<(Reader, nat)>)
    requires lines != []
    ensures r.Some? ==> 1 <= r.value.1 <= |lines|
  {
    var line := Trim(lines[0]);
    var rest := lines[1..];
    if |line| < 3 then Some((rd, 1))
    else if IsTriple(line) then Some((rd, 1 + CommentLines(rest, line[0])))
    else if IsHeader(line) then
      match EnterSection(rd, HeaderText(line))
      case None => None
      case Some(next) => Some((next, 1))
    else if IsComment(line) then Some((rd, 1))
    else
      match RawEntry(lines[0], rest)
      case None => None
      case Some(raw) =>
        match AddEntry(rd, raw.name, raw.items)
        case None => None
        case Some(next) => Some((next, 1 + raw.extra))
  }

  function ReadAll(rd: Reader, lines: seq<string>): Option<Reader>
    decreases |lines|
  {
    if lines == [] then Some(rd)
    else
      match ReadOne(rd, lines)
      case None => None
      case Some((next, n)) => ReadAll(next, lines[n..])
  }

  /** The closing items at the end of the file. */
  function Finish(rd: Reader): Option<seq<ConfigItem>> {
    if rd.section == DEFAULT then Some(rd.output)
    else
      match SectionParents(rd.section)
      case None => None
      case Some(parents) => Some(rd.output + [Closing(parents)] + ClosingsAfter(Closing(parents)))
  }

  /** from_config; None where it throws. */
  function FromConfig(lines: seq<string>): Option<seq<ConfigItem>> {
    match ReadAll(Reader([], DEFAULT), lines)
    case None => None
    case Some(rd) => Finish(rd)
  }
}
