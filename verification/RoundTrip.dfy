/** Printing and reading back one line: what ini_join of external/CLI/CLI11.hpp
    writes on a line, from_config reads. */
module RoundTrip {
  import opened Text
  import opened Escapes
  import opened Brackets
  import opened BinaryCodec
  import opened Splitting
  import opened Quoting
  import opened IniPrinter
  import opened Sections
  import opened ConfigReader

  // ---------------------------------------------------------------- arrays

  /** The bracket scanner steps over bare words. */
  lemma {:induction false} SkipWord(s: string, i: nat, p: string)
    requires At(s, i, p) && forall k | 0 <= k < |p| :: IsWordChar(p[k]) || p[k] == ',' || p[k] == ' '
    ensures GroupEnd(s, i, ']') == GroupEnd(s, i + |p|, ']')
    decreases |p|
  {
    if p != [] {
      assert p == [p[0]] + p[1..];
      AtHead(s, i, p[0], p[1..]);
      SkipWord(s, i + 1, p[1..]);
    }
  }

  lemma SkipAtom(s: string, i: nat, p: string)
    requires At(s, i, p) && IsAtom(p)
    ensures GroupEnd(s, i, ']') == GroupEnd(s, i + |p|, ']')
  {
    if IsWord(p) {
      SkipWord(s, i, p);
    } else {
      var q := p[0];
      assert p == [q] + (Inner(p) + [q]);
      AtHead(s, i, q, Inner(p) + [q]);
      if q == '"' {
        StringEndAt(s, i + 1, Inner(p));
      } else {
        FindAt(s, i + 1, q, Inner(p));
      }
    }
  }

  predicate AllAtoms(ps: seq<string>) {
    forall i | 0 <= i < |ps| :: IsAtom(ps[i])
  }

  lemma SkipAtomAndComma(s: string, i: nat, p: string, j: string)
    requires IsAtom(p) && At(s, i, p + ", " + j)
    ensures At(s, i + |p| + 2, j) && GroupEnd(s, i, ']') == GroupEnd(s, i + |p| + 2, ']')
  {
    AtConcat(s, i, p + ", ", j);
    AtConcat(s, i, p, ", ");
    SkipAtom(s, i, p);
    SkipWord(s, i + |p|, ", ");
  }

  lemma {:induction false} SkipJoined(s: string, i: nat, ps: seq<string>)
    requires AllAtoms(ps) && At(s, i, Joined(ps))
    ensures GroupEnd(s, i, ']') == GroupEnd(s, i + |Joined(ps)|, ']')
    decreases |ps|
  {
    hide At, GroupEnd, IsAtom;
    if |ps| == 1 {
      SkipAtom(s, i, ps[0]);
    } else if |ps| > 1 {
      SkipAtomAndComma(s, i, ps[0], Joined(ps[1..]));
      SkipJoined(s, i + |ps[0]| + 2, ps[1..]);
    }
  }

  function Bracketed(ps: seq<string>): string {
    "[" + Joined(ps) + "]"
  }

  /** An array of atoms closes at its last character. */
  lemma ArrayCloses(ps: seq<string>)
    requires AllAtoms(ps)
    ensures CloseSequence(Bracketed(ps), 0, ']') == |Bracketed(ps)| - 1
  {
    var s, j := Bracketed(ps), Joined(ps);
    assert s[1..1 + |j|] == j;
    SkipJoined(s, 1, ps);
  }

  lemma SplitWhole(p: string, delimiter: char)
    requires p != [] && Trimmed(p) && FirstPiece(p, delimiter) == (p, [])
    ensures SplitUp(p, delimiter) == [p]
  {
    TrimIsTrimmed(p);
    PiecesStep([], p, delimiter, p, []);
    assert Pieces(Trim([]), delimiter) == [];
  }

  /** The text a list of printed values makes. */
  predicate IsValueText(p: string, ps: seq<string>) {
    AllAtoms(ps) && ((|ps| > 1 && p == Bracketed(ps)) || (|ps| == 1 && p == ps[0]))
  }

  lemma ValueTextShape(p: string, ps: seq<string>)
    requires IsValueText(p, ps)
    ensures p != [] && Trimmed(p) && !IsTriple(p)
  {
    if |ps| > 1 {
      assert p[0] == '[' && p[|p| - 1] == ']';
    } else {
      assert IsAtom(p);
      if IsWord(p) {
        assert IsWordChar(p[0]) && IsWordChar(p[|p| - 1]);
      } else if |p| > 2 {
        assert Inner(p)[0] == p[1];
      }
    }
  }

  /** No comment is cut from a printed value. */
  lemma ValueTextUncut(p: string, ps: seq<string>)
    requires IsValueText(p, ps)
    ensures WithoutComment(p) == p
  {
    ValueTextShape(p, ps);
    TrimIsTrimmed(p);
    if |ps| > 1 {
      ArrayCloses(ps);
      assert p[0] == '[';
      assert FirstPiece(p, '#') == (p, []);
    } else if IsWord(p) {
      assert IsWordChar(p[0]);
      assert FindDelimiter(p, '#', 0) == |p|;
    } else {
      FirstPieceQuoted(p, [], '#');
      assert p + [] == p;
    }
    SplitWhole(p, '#');
  }

  /** The values of a printed text come out as they were printed. */
  lemma ValueTextItems(p: string, ps: seq<string>, lines: seq<string>)
    requires IsValueText(p, ps)
    ensures PlainItems(p, lines) == (ps, 0)
  {
    ValueTextShape(p, ps);
    if |ps| > 1 {
      assert Inner(p) == Joined(ps);
      assert p[0] == '[' && Last(p) == ']';
      assert ArrayText(p, lines) == (p, 0);
      SplitJoined(ps);
    } else {
      assert IsAtom(p) && ps == [p];
      if IsWord(p) {
        assert IsWordChar(p[0]);
        assert ',' !in p && ' ' !in p;
      } else {
        SplitQuoted(p, ',');
        SplitQuoted(p, NUL);
      }
    }
  }

  // ---------------------------------------------------------------- keys and sections

  /** A component of a section path: no blanks, quotes or dots, and no bracket in front. */
  predicate IsPart(p: string) {
    p != [] && !IsOpener(p[0]) &&
    forall i | 0 <= i < |p| :: !IsSpace(p[i]) && !IsQuote(p[i]) && p[i] != '.'
  }

  /** A component of a plain key: also without delimiter and comment characters. */
  predicate IsKeyPart(p: string) {
    IsPart(p) && forall i | 0 <= i < |p| :: p[i] != '=' && p[i] != '#'
  }

  /** The components of a plain or dotted key. */
  predicate IsKey(keys: Path) {
    keys != [] && (forall i | 0 <= i < |keys| :: IsKeyPart(keys[i])) && keys[0][0] != ';'
  }

  predicate AllParts(path: Path) {
    forall i | 0 <= i < |path| :: IsPart(path[i])
  }

  /** A section other than `default`. */
  predicate IsSection(path: Path) {
    path != [] && AllParts(path) && !(|path| == 1 && ToLower(path[0]) == DEFAULT)
  }

  function Dotted(path: Path): string {
    if path == [] then [] else if |path| == 1 then path[0] else path[0] + "." + Dotted(path[1..])
  }

  lemma {:induction false} DottedShape(path: Path)
    requires path != [] && AllParts(path)
    ensures Dotted(path) != [] && Trimmed(Dotted(path)) && Dotted(path)[0] == path[0][0]
    ensures '.' in Dotted(path) <==> |path| > 1
  {
    if |path| > 1 {
      DottedShape(path[1..]);
      var d := Dotted(path);
      assert IsPart(path[0]);
      assert d[0] == path[0][0] && d[|path[0]|] == '.';
      assert d[|d| - 1] == Dotted(path[1..])[|Dotted(path[1..])| - 1];
    } else {
      assert IsPart(path[0]);
    }
  }

  lemma FirstPart(p: string, t: string)
    requires IsPart(p) && (t == [] || t[0] == '.')
    ensures FirstPiece(p + t, '.') == (p, if t == [] then [] else t[1..])
  {
    var s := p + t;
    assert forall k | 0 <= k < |p| :: s[k] == p[k];
    if t == [] {
      assert s == p && FindDelimiter(s, '.', 0) == |s|;
    } else {
      assert s[|p|] == '.' && IsDelimiter(s[|p|], '.');
      assert FindDelimiter(s, '.', 0) == |p|;
      assert s[..|p|] == p && s[|p| + 1..] == t[1..];
    }
  }

  lemma SplitPart(p: string, d: string)
    requires IsPart(p) && Trimmed(p + "." + d) && Trimmed(d)
    ensures SplitUp(p + "." + d, '.') == [p] + SplitUp(d, '.')
  {
    var t := "." + d;
    assert p + t == p + "." + d && t[1..] == d;
    FirstPart(p, t);
    TrimIsTrimmed(p + t);
    TrimIsTrimmed(d);
    PiecesStep([], p + t, '.', p, d);
  }

  lemma SplitOnePart(p: string)
    requires IsPart(p) && Trimmed(p)
    ensures SplitUp(p, '.') == [p]
  {
    hide FirstPiece, Trimmed;
    FirstPart(p, []);
    assert p + [] == p;
    SplitWhole(p, '.');
  }

  /** A dotted path splits into its components. */
  lemma {:induction false} SplitDotted(path: Path)
    requires path != [] && AllParts(path)
    ensures SplitUp(Dotted(path), '.') == path
  {
    hide SplitUp, Trimmed, IsPart;
    DottedShape(path);
    if |path| == 1 {
      SplitOnePart(path[0]);
      assert path == [path[0]];
    } else {
      DottedShape(path[1..]);
      SplitPart(path[0], Dotted(path[1..]));
      SplitDotted(path[1..]);
      assert [path[0]] + path[1..] == path;
    }
  }

  lemma {:induction false} CleanPlainParts(path: Path)
    requires AllParts(path)
    ensures CleanParts(path) == Some(path)
  {
    if path != [] {
      assert IsPart(path[0]);
      CleanPlainParts(path[1..]);
      assert [path[0]] + path[1..] == path;
    }
  }

  lemma NotDefault(path: Path)
    requires IsSection(path)
    ensures ToLower(Dotted(path)) != DEFAULT && Dotted(path) != DEFAULT
  {
    DottedShape(path);
    var d := Dotted(path);
    if |path| > 1 {
      var i :| 0 <= i < |d| && d[i] == '.';
      assert ToLower(d)[i] == '.';
      assert '.' !in DEFAULT;
    }
    assert ToLower(DEFAULT) == DEFAULT;
  }

  /** The header text of a current section. */
  function SectionText(path: Path): string {
    if path == [] then DEFAULT else Dotted(path)
  }

  lemma PlainSectionParts(path: Path)
    requires path == [] || IsSection(path)
    ensures SectionParts(SectionText(path)) == path
  {
    if path == [] {
      assert ToLower(DEFAULT) == DEFAULT;
    } else {
      NotDefault(path);
      DottedShape(path);
      SplitDotted(path);
    }
  }

  /** The parents and the name of a dotted key. */
  lemma DottedName(keys: Path)
    requires keys != [] && AllParts(keys)
    ensures NameParts(Dotted(keys)) == (DropLast(keys), Last(keys))
  {
    DottedShape(keys);
    if |keys| > 1 {
      SplitDotted(keys);
    }
  }

  lemma ParentsOfParts(section: string, path: Path, name: string, more: Path, last: string)
    requires SectionParts(section) == path && NameParts(name) == (more, last) && CleanParts(path + more) == Some(path + more)
    ensures GenerateParents(section, name) == Some((path + more, last))
  {
  }

  lemma PlainParents(path: Path, keys: Path)
    requires (path == [] || IsSection(path)) && keys != [] && AllParts(keys)
    ensures GenerateParents(SectionText(path), Dotted(keys)) == Some((path + DropLast(keys), Last(keys)))
  {
    PlainSectionParts(path);
    DottedName(keys);
    CleanPlainParts(path + DropLast(keys));
    ParentsOfParts(SectionText(path), path, Dotted(keys), DropLast(keys), Last(keys));
  }

  lemma PlainSectionParents(path: Path)
    requires path == [] || IsSection(path)
    ensures GenerateParents(SectionText(path), []) == Some((path, []))
  {
    PlainSectionParts(path);
    CleanPlainParts(path);
    assert path + [] == path;
    ParentsOfParts(SectionText(path), path, [], [], []);
  }

  // ---------------------------------------------------------------- header lines

  function HeaderLine(path: Path): string {
    "[" + SectionText(path) + "]"
  }

  lemma SectionTextShape(path: Path)
    requires path == [] || IsSection(path)
    ensures SectionText(path) != [] && SectionText(path)[0] != '['
  {
    if path != [] {
      DottedShape(path);
      assert IsPart(path[0]);
    }
  }

  lemma BracketLineShape(text: string)
    requires text != [] && text[0] != '['
    ensures var line := "[" + text + "]";
            |line| >= 3 && Trim(line) == line && !IsTriple(line) && IsHeader(line) && HeaderText(line) == text
  {
    hide Trim;
    var line := "[" + text + "]";
    assert line[0] == '[' && Last(line) == ']';
    TrimIsTrimmed(line);
    assert Inner(line) == text;
  }

  lemma HeaderLineShape(path: Path)
    requires path == [] || IsSection(path)
    ensures var line := HeaderLine(path);
            |line| >= 3 && Trim(line) == line && !IsTriple(line) && IsHeader(line) && HeaderText(line) == SectionText(path)
  {
    hide Trim, IsTriple, IsHeader, HeaderText, SectionText, IsSection;
    SectionTextShape(path);
    BracketLineShape(SectionText(path));
  }

  lemma ReadHeader(rd: Reader, path: Path, lines: seq<string>)
    requires path == [] || IsSection(path)
    requires lines != [] && lines[0] == HeaderLine(path)
    ensures ReadOne(rd, lines) ==
            match EnterSection(rd, SectionText(path))
            case None => None
            case Some(next) => Some((next, 1))
  {
    HeaderLineShape(path);
  }

  // ---------------------------------------------------------------- key lines

  function KeyLine(keys: Path, text: string): string {
    Dotted(keys) + "=" + text
  }

  lemma {:induction false} KeyChars(keys: Path)
    requires forall i | 0 <= i < |keys| :: IsKeyPart(keys[i])
    ensures AllParts(keys)
    ensures forall i | 0 <= i < |Dotted(keys)| ::
              var c := Dotted(keys)[i]; c != '=' && c != '#' && !IsQuote(c) && !IsSpace(c)
  {
    if |keys| > 1 {
      KeyChars(keys[1..]);
    }
  }

  lemma KeyShape(keys: Path)
    requires IsKey(keys)
    ensures AllParts(keys) && Dotted(keys) != [] && Trimmed(Dotted(keys))
    ensures var c := Dotted(keys)[0]; c != ';' && c != '#' && c != '[' && !IsQuote(c) && !IsSpace(c)
  {
    KeyChars(keys);
    DottedShape(keys);
    assert IsKeyPart(keys[0]);
  }

  /** What the reader asks of a line before it takes it for an entry. */
  predicate IsEntryLine(line: string) {
    |line| >= 3 && !IsTriple(line) && !IsHeader(line) && !IsComment(line)
  }

  lemma KeyLineShape(keys: Path, text: string)
    requires IsKey(keys) && text != [] && !IsSpace(text[|text| - 1])
    ensures Trim(KeyLine(keys, text)) == KeyLine(keys, text) && IsEntryLine(KeyLine(keys, text))
  {
    hide Dotted, IsKey;
    KeyShape(keys);
    var line := KeyLine(keys, text);
    assert line[0] == Dotted(keys)[0] && line[|line| - 1] == text[|text| - 1];
    TrimIsTrimmed(line);
  }

  /** The search for the delimiter passes over the components of a key. */
  lemma {:induction false} SearchPath(line: string, i: nat, keys: Path)
    requires keys != [] && (forall k | 0 <= k < |keys| :: IsKeyPart(keys[k])) && At(line, i, Dotted(keys) + "=")
    ensures SearchStart(line, i) == i + |Dotted(keys)| - 1
    decreases |keys|
  {
    var p, n := keys[0], i + |keys[0]|;
    assert IsKeyPart(p);
    if |keys| == 1 {
      SearchPart(line, i, p, "=");
    } else {
      var d := Dotted(keys[1..]) + "=";
      assert Dotted(keys) + "=" == p + ("." + d);
      SearchPart(line, i, p, "." + d);
      assert "." + d == ['.'] + d;
      AtHead(line, n, '.', d);
      SearchPath(line, n + 1, keys[1..]);
    }
  }

  lemma SearchPart(line: string, i: nat, p: string, t: string)
    requires IsKeyPart(p) && t != [] && (t[0] == '.' || t[0] == '=') && At(line, i, p + t)
    ensures At(line, i + |p|, t) && SearchStart(line, i) == SearchStart(line, i + |p|)
  {
    AtConcat(line, i, p, t);
    assert forall k | 0 <= k < |p| :: line[i + k] == p[k] by {
      assert line[i..i + |p|] == p;
    }
    assert line[i + |p|] == t[0] by {
      assert line[i + |p|..i + |p| + |t|] == t;
    }
    assert FindAny(line, {'.', '#', '='}, i) == i + |p|;
  }

  lemma KeyLineStart(keys: Path, text: string)
    requires IsKey(keys)
    ensures var line := KeyLine(keys, text);
            LineStart(line) == if HasQuote(line) then |Dotted(keys)| - 1 else 0
  {
    hide SearchStart;
    var line := KeyLine(keys, text);
    assert line[0..|Dotted(keys) + "="|] == Dotted(keys) + "=";
    SearchPath(line, 0, keys);
  }

  lemma KeyLineDelimiter(keys: Path, text: string)
    requires IsKey(keys)
    ensures DelimiterAt(KeyLine(keys, text)) == |Dotted(keys)|
  {
    hide LineStart, Dotted;
    var line, d := KeyLine(keys, text), Dotted(keys);
    KeyShape(keys);
    KeyChars(keys);
    KeyLineStart(keys, text);
    assert forall k | 0 <= k < |d| :: line[k] == d[k];
    assert line[|d|] == '=';
    assert Find(line, '=', LineStart(line) + 1) == |d|;
    assert CommentAt(line) >= |d|;
  }

  lemma KeyLineParts(keys: Path, text: string)
    requires IsKey(keys) && text != [] && Trimmed(text)
    ensures var line, n := KeyLine(keys, text), |Dotted(keys)|;
            Trim(line[..n]) == Dotted(keys) && ValueText(line, n) == text
  {
    hide Dotted, IsKey, Trim, Trimmed;
    var line, d := KeyLine(keys, text), Dotted(keys);
    KeyShape(keys);
    assert line[..|d|] == d && line[|d| + 1..] == text;
    TrimIsTrimmed(d);
    TrimIsTrimmed(text);
  }

  lemma RawEntryOf(line: string, at: nat, name: string, text: string, items: seq<string>, lines: seq<string>)
    requires Trim(line) == line && DelimiterAt(line) == at < |line| && Trim(line[..at]) == name
    requires ValueText(line, at) == text && WithoutComment(text) == text
    requires !IsTriple(text) && PlainItems(text, lines) == (items, 0)
    ensures RawEntry(line, lines) == Some(Raw(name, items, 0))
  {
    hide Trim, DelimiterAt, CommentAt, WithoutComment, PlainItems, IsTriple, TripleValue, ValueText;
    assert PlainText(line, at) == text;
    assert RawValue(line, line, at, lines) == Some(Raw(name, items, 0));
  }

  /** A key line with a printed value gives its key and its printed values. */
  lemma KeyLineRaw(keys: Path, text: string, ps: seq<string>, lines: seq<string>)
    requires IsKey(keys) && IsValueText(text, ps)
    ensures RawEntry(KeyLine(keys, text), lines) == Some(Raw(Dotted(keys), ps, 0))
  {
    hide Trim, DelimiterAt, WithoutComment, PlainItems, IsTriple, ValueText, RawEntry, IsKey, IsValueText, Trimmed;
    hide IsEntryLine, Dotted;
    ValueTextShape(text, ps);
    KeyLineShape(keys, text);
    KeyLineDelimiter(keys, text);
    KeyLineParts(keys, text);
    ValueTextUncut(text, ps);
    ValueTextItems(text, ps, lines);
    RawEntryOf(KeyLine(keys, text), |Dotted(keys)|, Dotted(keys), text, ps, lines);
  }

  lemma NameUnquoted(key: string)
    requires IsKeyPart(key)
    ensures Unquoted(key) == Some(key)
  {
    assert !IsBinary(key) by {
      assert |key| < 3 || key[..3][1] == key[1];
      assert |key| < 4 || key[..4][0] == key[0];
    }
  }

  /** The reader after an entry for a key in a section. */
  function Stored(rd: Reader, path: Path, keys: Path, vs: seq<string>): Reader
    requires keys != []
  {
    var parents := path + DropLast(keys);
    if |parents| > MAXIMUM_LAYERS then rd else rd.(output := AddItem(rd.output, parents, Last(keys), vs))
  }

  /** What storing raw values under a key comes to. */
  lemma AddKeyEntry(rd: Reader, path: Path, keys: Path, items: seq<string>)
    requires (path == [] || IsSection(path)) && rd.section == SectionText(path) && IsKey(keys)
    ensures AddEntry(rd, Dotted(keys), items) ==
            match UnquotedAll(items)
            case None => None
            case Some(vs) => Some(Stored(rd, path, keys, vs))
  {
    hide GenerateParents, Unquoted, UnquotedAll, Dotted, IsSection, AddItem;
    KeyShape(keys);
    PlainParents(path, keys);
    assert IsKeyPart(Last(keys));
    NameUnquoted(Last(keys));
  }

  lemma ReadEntryLine(rd: Reader, lines: seq<string>, raw: Raw)
    requires lines != [] && IsEntryLine(Trim(lines[0])) && RawEntry(lines[0], lines[1..]) == Some(raw)
    ensures ReadOne(rd, lines) ==
            match AddEntry(rd, raw.name, raw.items)
            case None => None
            case Some(next) => Some((next, 1 + raw.extra))
  {
    hide AddEntry;
    hide RawEntry;
  }

  /** Reading a key line adds its values to the items of the current section. */
  lemma ReadKeyLine(rd: Reader, path: Path, keys: Path, text: string, ps: seq<string>, vs: seq<string>, lines: seq<string>)
    requires (path == [] || IsSection(path)) && rd.section == SectionText(path)
    requires IsKey(keys) && IsValueText(text, ps) && UnquotedAll(ps) == Some(vs)
    requires lines != [] && lines[0] == KeyLine(keys, text)
    ensures ReadOne(rd, lines) == Some((Stored(rd, path, keys, vs), 1))
  {
    hide ReadOne, RawEntry, IsSection, IsKey, IsValueText, IsEntryLine, Trim, AddEntry, Stored, Trimmed, IsTriple;
    ValueTextShape(text, ps);
    KeyLineShape(keys, text);
    KeyLineRaw(keys, text, ps, lines[1..]);
    ReadEntryLine(rd, lines, Raw(Dotted(keys), ps, 0));
    AddKeyEntry(rd, path, keys, ps);
  }

  // ---------------------------------------------------------------- printed values

  predicate AllOctets(values: seq<string>) {
    forall i | 0 <= i < |values| :: Octets(values[i])
  }

  /** A single value that is printed between triple quotes. */
  predicate IsLoneMultiLine(values: seq<string>, toDouble: string -> bool) {
    |values| == 1 && IsMultiLineForm(values[0], toDouble)
  }

  function ReadBackAll(values: seq<string>, toDouble: string -> bool): (r: seq<string>)
    requires AllOctets(values)
    ensures |r| == |values| && forall i | 0 <= i < |values| :: r[i] == ReadBack(values[i], toDouble)
  {
    seq(|values|, i requires 0 <= i < |values| => ReadBack(values[i], toDouble))
  }

  lemma {:induction false} UnquotedEach(ps: seq<string>, vs: seq<string>)
    requires |ps| == |vs| && forall i | 0 <= i < |ps| :: Unquoted(ps[i]) == Some(vs[i])
    ensures UnquotedAll(ps) == Some(vs)
  {
    hide Unquoted;
    if ps != [] {
      UnquotedEach(ps[1..], vs[1..]);
      assert vs == [vs[0]] + vs[1..];
    }
  }

  /** A printed list of values is a value text whose atoms unquote to what the reader gets. */
  lemma PrintedValues(values: seq<string>, toDouble: string -> bool)
    requires values != [] && AllOctets(values) && !IsLoneMultiLine(values, toDouble)
    ensures var ps := ConvertedAll(values, toDouble, |values| > 1);
            IsValueText(IniJoined(values, toDouble), ps) && UnquotedAll(ps) == Some(ReadBackAll(values, toDouble))
  {
    hide Converted, IsAtom, Unquoted, ReadBack, IsMultiLineForm;
    var ps := ConvertedAll(values, toDouble, |values| > 1);
    forall i | 0 <= i < |ps|
      ensures IsAtom(ps[i]) && Unquoted(ps[i]) == Some(ReadBack(values[i], toDouble))
    {
      ConvertedForm(values[i], toDouble, |values| > 1);
    }
    UnquotedEach(ps, ReadBackAll(values, toDouble));
  }

  // ---------------------------------------------------------------- line breaks

  lemma {:induction false} EscapedHasNoBreak(s: string)
    ensures '\n' !in Escaped(s)
  {
    if s != [] {
      EscapedHasNoBreak(s[1..]);
    }
  }

  lemma BinaryHasNoBreak(arg: string)
    requires Octets(arg)
    ensures '\n' !in BinaryEscaped(arg)
  {
    BodyPrintable(arg);
    FixQuotesPrintable(Body(arg));
  }

  lemma ConvertedHasNoBreak(arg: string, toDouble: string -> bool, noMultiLine: bool)
    requires Octets(arg) && (noMultiLine || !IsMultiLineForm(arg, toDouble))
    ensures '\n' !in Converted(arg, toDouble, noMultiLine)
  {
    hide BinaryEscaped, Escaped, IsNumber, IsRadix, IsReserved;
    if IsBare(arg, toDouble) {
      BareIsWord(arg, toDouble);
    } else if IsBinaryForm(arg, toDouble) {
      BinaryHasNoBreak(arg);
    } else {
      EscapedHasNoBreak(arg);
    }
  }

  lemma {:induction false} JoinedHasNoBreak(ps: seq<string>)
    requires forall i | 0 <= i < |ps| :: '\n' !in ps[i]
    ensures '\n' !in Joined(ps)
  {
    if |ps| > 1 {
      JoinedHasNoBreak(ps[1..]);
    }
  }

  /** A printed list of values stays on one line. */
  lemma PrintedOnOneLine(values: seq<string>, toDouble: string -> bool)
    requires AllOctets(values) && !IsLoneMultiLine(values, toDouble)
    ensures '\n' !in IniJoined(values, toDouble)
  {
    hide Converted, IsMultiLineForm;
    var ps := ConvertedAll(values, toDouble, |values| > 1);
    forall i | 0 <= i < |ps|
      ensures '\n' !in ps[i]
    {
      ConvertedHasNoBreak(values[i], toDouble, |values| > 1);
    }
    JoinedHasNoBreak(ps);
  }
}
