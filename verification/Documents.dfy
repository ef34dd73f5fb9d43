/** What from_config of external/CLI/CLI11.hpp reads from printed lines: from one
    entry, exactly when it comes back; and from a whole file. */
module Documents {
  import opened Text
  import opened Escapes
  import opened Quoting
  import opened IniPrinter
  import opened Sections
  import opened ConfigReader
  import opened RoundTrip
  import opened TripleQuotes

  // ---------------------------------------------------------------- one entry, printed

  /** The lines that a key and its values are printed on. */
  function EntryLines(keys: Path, values: seq<string>, toDouble: string -> bool): seq<string>
    requires AllOctets(values)
  {
    Lines(KeyLine(keys, IniJoined(values, toDouble)))
  }

  lemma LoneTripled(values: seq<string>, toDouble: string -> bool)
    requires AllOctets(values) && IsLoneMultiLine(values, toDouble)
    ensures values == [values[0]] && values[0] != [] && IniJoined(values, toDouble) == Tripled(values[0])
    ensures ReadBackAll(values, toDouble) == values && AllFaithful(values, toDouble)
  {
    hide IsReserved, IsNumber, IsRadix, IsPrintable, HasEscapable;
    assert ConvertedAll(values, toDouble, false)[0] == Converted(values[0], toDouble, false);
  }

  lemma EntryOnOneLine(keys: Path, values: seq<string>, toDouble: string -> bool)
    requires IsKey(keys) && AllOctets(values) && !IsLoneMultiLine(values, toDouble)
    ensures EntryLines(keys, values, toDouble) == [KeyLine(keys, IniJoined(values, toDouble))]
  {
    hide IsKey, Dotted, IniJoined, IsLoneMultiLine;
    KeyHasNoBreak(keys);
    PrintedOnOneLine(values, toDouble);
    var line := KeyLine(keys, IniJoined(values, toDouble));
    assert '\n' !in line;
  }

  /** The entry can come back, its values apart: a lone one between triple quotes survives. */
  predicate IsReadable(values: seq<string>, toDouble: string -> bool) {
    IsLoneMultiLine(values, toDouble) ==> Survives(values[0])
  }

  /** Reading a printed entry stores what the reader gets for its values, wherever
      it stands in a file. */
  lemma ReadPrinted(rd: Reader, path: Path, keys: Path, values: seq<string>, toDouble: string -> bool, rest: seq<string>)
    requires (path == [] || IsSection(path)) && rd.section == SectionText(path)
    requires IsKey(keys) && values != [] && AllOctets(values) && IsReadable(values, toDouble)
    ensures var ls := EntryLines(keys, values, toDouble);
            ReadOne(rd, ls + rest) == Some((Stored(rd, path, keys, ReadBackAll(values, toDouble)), |ls|))
  {
    hide ReadOne, IsSection, IsKey, KeyLine, IsLoneMultiLine, Survives, Lines, Stored, IsValueText, UnquotedAll, IniJoined;
    if IsLoneMultiLine(values, toDouble) {
      LoneTripled(values, toDouble);
      ReadTripled(rd, path, keys, values[0], rest);
    } else {
      EntryOnOneLine(keys, values, toDouble);
      PrintedValues(values, toDouble);
      ReadKeyLine(rd, path, keys, IniJoined(values, toDouble), ConvertedAll(values, toDouble, |values| > 1),
                  ReadBackAll(values, toDouble), EntryLines(keys, values, toDouble) + rest);
    }
  }

  predicate AllFaithful(values: seq<string>, toDouble: string -> bool) {
    forall i | 0 <= i < |values| :: IsFaithful(values[i], toDouble)
  }

  lemma ReadBackAllFaithful(values: seq<string>, toDouble: string -> bool)
    requires AllOctets(values)
    ensures ReadBackAll(values, toDouble) == values <==> AllFaithful(values, toDouble)
  {
    hide ReadBack, IsFaithful;
    forall i | 0 <= i < |values|
      ensures ReadBack(values[i], toDouble) == values[i] <==> IsFaithful(values[i], toDouble)
    {
      ReadBackFaithful(values[i], toDouble);
    }
  }

  // ---------------------------------------------------------------- what no later line mends

  /** Values are only stored in items that are not nested too deep. */
  predicate Shallow(output: seq<ConfigItem>) {
    forall i | 0 <= i < |output| :: output[i].inputs != [] ==> |output[i].parents| <= MAXIMUM_LAYERS
  }

  /** The first item is for the same key with another first value; or it has given
      way to an opening marker, as an item named like a closing marker can. */
  predicate Spoilt(output: seq<ConfigItem>, t: ConfigItem)
    requires t.inputs != []
  {
    output != [] &&
    var first := output[0];
    || (first.name == t.name && first.parents == t.parents && first.inputs != [] && first.inputs[0] != t.inputs[0])
    || (first.name == OPEN && t.name == CLOSE)
  }

  /** The items will not become just `t`. */
  predicate Misses(output: seq<ConfigItem>, t: ConfigItem)
    requires t.inputs != []
  {
    (|t.parents| > MAXIMUM_LAYERS && Shallow(output)) || Spoilt(output, t)
  }

  lemma NotItself(t: ConfigItem)
    requires t.inputs != []
    ensures !Misses([t], t)
  {
    assert [t][0] == t;
  }

  lemma {:induction false} ClosingsShallow(item: ConfigItem, lo: nat)
    requires Shallow([item])
    ensures Shallow(Closings(item, lo))
    decreases |item.parents|
  {
    if |item.parents| > lo {
      assert [item][0] == item;
      ClosingsShallow(item.(parents := DropLast(item.parents)), lo);
    }
  }

  lemma {:induction false} OpeningsShallow(path: Path, lo: nat)
    ensures Shallow(Openings(path, lo))
    decreases |path| - lo
  {
    if lo < |path| {
      OpeningsShallow(path, lo + 1);
    }
  }

  lemma ShallowConcat(a: seq<ConfigItem>, b: seq<ConfigItem>)
    requires Shallow(a) && Shallow(b)
    ensures Shallow(a + b)
  {
  }

  lemma ShallowLast(output: seq<ConfigItem>)
    requires output != [] && Shallow(output)
    ensures Shallow(DropLast(output)) && Shallow([Last(output)])
    ensures Last(output).parents != [] ==> Shallow([Last(output).(parents := DropLast(Last(output).parents))])
  {
  }

  lemma SectionShallow(output: seq<ConfigItem>, path: Path)
    requires path != [] && Shallow(output)
    ensures Shallow(WithSection(output, path))
  {
    hide Shallow, Closings, Openings;
    OpeningsShallow(path, 0);
    ShallowConcat(output, Openings(path, 0));
    if output != [] && Last(output).name == CLOSE {
      var back := Last(output);
      ShallowLast(output);
      var keep := if |path| > 1 then Common(back.parents, DropLast(path)) else 0;
      OpeningsShallow(path, keep);
      ClosingsShallow(back, keep);
      ShallowConcat(DropLast(output), Closings(back, keep));
      ShallowConcat(DropLast(output) + Closings(back, keep), Openings(path, keep));
      AncestorsShallow(back);
      ShallowConcat(output, ClosingsAfter(back));
      ShallowConcat(output + ClosingsAfter(back), Openings(path, 0));
    }
  }

  lemma AncestorsShallow(back: ConfigItem)
    requires Shallow([back])
    ensures Shallow(ClosingsAfter(back))
  {
    if back.parents != [] {
      assert [back][0] == back;
      ClosingsShallow(back.(parents := DropLast(back.parents)), 0);
    }
  }

  lemma SectionSpoilt(output: seq<ConfigItem>, path: Path, t: ConfigItem)
    requires path != [] && t.inputs != [] && Spoilt(output, t)
    ensures Spoilt(WithSection(output, path), t)
  {
    var w := WithSection(output, path);
    if |output| == 1 && output[0].name == CLOSE && |path| > 1 {
      var back := output[0];
      var keep := Common(back.parents, DropLast(path));
      assert DropLast(output) == [];
      if |back.parents| > keep {
        assert w[0] == back;
      } else {
        assert Closings(back, keep) == [];
        assert w[0] == Opening(path[..keep + 1]);
      }
    } else {
      assert w[0] == output[0];
    }
  }

  lemma SectionMisses(output: seq<ConfigItem>, path: Path, t: ConfigItem)
    requires path != [] && t.inputs != [] && Misses(output, t)
    ensures Misses(WithSection(output, path), t)
  {
    hide WithSection, Shallow, Spoilt;
    if Spoilt(output, t) {
      SectionSpoilt(output, path, t);
    } else {
      SectionShallow(output, path);
    }
  }

  lemma MoreMisses(output: seq<ConfigItem>, more: seq<ConfigItem>, t: ConfigItem)
    requires t.inputs != [] && Misses(output, t) && Shallow(more)
    ensures Misses(output + more, t)
  {
  }

  lemma EnterMisses(rd: Reader, text: string, t: ConfigItem)
    requires t.inputs != [] && Misses(rd.output, t)
    ensures var r := EnterSection(rd, text); r.Some? ==> Misses(r.value.output, t)
  {
    hide Misses, WithSection, SectionParents, ToLower;
    var r := Left(rd);
    if r.Some? {
      if rd.section != DEFAULT {
        MoreMisses(rd.output, [Closing(SectionParents(rd.section).value)], t);
      }
      if ToLower(text) != DEFAULT && SectionParents(text).Some? {
        SectionMisses(r.value, SectionParents(text).value, t);
      }
    }
  }

  lemma EntryMisses(rd: Reader, name: string, items: seq<string>, t: ConfigItem)
    requires t.inputs != [] && Misses(rd.output, t)
    ensures var r := AddEntry(rd, name, items); r.Some? ==> Misses(r.value.output, t)
  {
    hide GenerateParents, Unquoted, UnquotedAll;
  }

  lemma OneMisses(rd: Reader, lines: seq<string>, t: ConfigItem)
    requires lines != [] && t.inputs != [] && Misses(rd.output, t)
    ensures var r := ReadOne(rd, lines); r.Some? ==> Misses(r.value.0.output, t)
  {
    hide Misses, EnterSection, AddEntry, RawEntry, Trim, IsTriple, IsComment, HeaderText, CommentLines;
    var line := Trim(lines[0]);
    if IsHeader(line) {
      EnterMisses(rd, HeaderText(line), t);
    }
    var raw := RawEntry(lines[0], lines[1..]);
    if raw.Some? {
      EntryMisses(rd, raw.value.name, raw.value.items, t);
    }
  }

  lemma {:induction false} AllMisses(rd: Reader, lines: seq<string>, t: ConfigItem)
    requires t.inputs != [] && Misses(rd.output, t)
    ensures var r := ReadAll(rd, lines); r.Some? ==> Misses(r.value.output, t)
    decreases |lines|
  {
    hide Misses, ReadOne;
    if lines != [] {
      OneMisses(rd, lines, t);
      var r := ReadOne(rd, lines);
      if r.Some? {
        AllMisses(r.value.0, lines[r.value.1..], t);
      }
    }
  }

  lemma FinishMisses(rd: Reader, t: ConfigItem)
    requires t.inputs != [] && Misses(rd.output, t)
    ensures Finish(rd) != Some([t])
  {
    hide Misses, SectionParents;
    NotItself(t);
    if rd.section != DEFAULT && SectionParents(rd.section).Some? {
      var c := Closing(SectionParents(rd.section).value);
      MoreMisses(rd.output, [c], t);
      AncestorsShallow(c);
      MoreMisses(rd.output + [c], ClosingsAfter(c), t);
    }
  }

  // ---------------------------------------------------------------- one entry, read back

  /** The item that a key and its values should come back as. */
  function ItemOf(keys: Path, values: seq<string>): ConfigItem
    requires keys != []
  {
    ConfigItem(DropLast(keys), Last(keys), values)
  }

  lemma StoredFirst(keys: Path, vs: seq<string>)
    requires keys != []
    ensures Stored(Reader([], DEFAULT), [], keys, vs) ==
            Reader(if |keys| > MAXIMUM_LAYERS + 1 then [] else [ItemOf(keys, vs)], DEFAULT)
  {
    assert [] + DropLast(keys) == DropLast(keys);
  }

  /** An entry that can come back reads as one item, or as none if its key is too deep. */
  lemma ReadableEntry(keys: Path, values: seq<string>, toDouble: string -> bool)
    requires IsKey(keys) && values != [] && AllOctets(values) && IsReadable(values, toDouble)
    ensures FromConfig(EntryLines(keys, values, toDouble)) ==
            Some(if |keys| > MAXIMUM_LAYERS + 1 then [] else [ItemOf(keys, ReadBackAll(values, toDouble))])
  {
    assert keys != [];
    hide ReadOne, IsKey, IsReadable, Stored, Lines, KeyLine, ReadAll;
    var rd, ls := Reader([], DEFAULT), EntryLines(keys, values, toDouble);
    ReadPrinted(rd, [], keys, values, toDouble, []);
    StoredFirst(keys, ReadBackAll(values, toDouble));
    assert ls + [] == ls;
    ReadWhole(rd, ls, Stored(rd, [], keys, ReadBackAll(values, toDouble)));
  }

  lemma ReadWhole(rd: Reader, ls: seq<string>, next: Reader)
    requires ls != [] && ReadOne(rd, ls) == Some((next, |ls|))
    ensures ReadAll(rd, ls) == Some(next)
  {
    hide ReadOne;
    assert ls[|ls|..] == [];
  }

  /** A lone value between triple quotes that does not survive never comes back. */
  lemma LoneMultiLineFails(keys: Path, values: seq<string>, toDouble: string -> bool)
    requires IsKey(keys) && AllOctets(values) && !IsReadable(values, toDouble)
    ensures FromConfig(EntryLines(keys, values, toDouble)) != Some([ItemOf(keys, values)])
  {
    assert keys != [];
    hide ReadOne, IsKey, Stored, Lines, KeyLine, IsLoneMultiLine, Survives, Unquoted, Misses, IniJoined, Finish;
    var rd, ls := Reader([], DEFAULT), EntryLines(keys, values, toDouble);
    LoneTripled(values, toDouble);
    var raw, n := ReadOther(rd, [], keys, values[0]);
    if Unquoted(raw).Some? {
      var u, t := Unquoted(raw).value, ItemOf(keys, values);
      var next := Stored(rd, [], keys, [u]);
      StoredFirst(keys, [u]);
      assert Misses(next.output, t) by { FirstMisses(keys, u, values); }
      AllMisses(next, ls[1 + n..], t);
      var end := ReadAll(next, ls[1 + n..]);
      if end.Some? {
        FinishMisses(end.value, t);
      }
    }
  }

  lemma FirstMisses(keys: Path, u: string, values: seq<string>)
    requires keys != [] && values != [] && u != values[0]
    ensures Misses(if |keys| > MAXIMUM_LAYERS + 1 then [] else [ItemOf(keys, [u])], ItemOf(keys, values))
  {
  }

  /** The config line round trip: for every plain or dotted key and every non-empty
      list of values, what is printed reads back as exactly one item with that key and
      those values, if and only if every value in binary form spells no escape and has
      quotes only at its ends, a lone value between triple quotes survives, and the key
      is not nested too deep. */
  lemma LineRoundTrip(keys: Path, values: seq<string>, toDouble: string -> bool)
    requires IsKey(keys) && values != [] && AllOctets(values)
    ensures FromConfig(EntryLines(keys, values, toDouble)) == Some([ItemOf(keys, values)]) <==>
            && AllFaithful(values, toDouble)
            && (IsLoneMultiLine(values, toDouble) ==> Survives(values[0]))
            && |keys| <= MAXIMUM_LAYERS + 1
  {
    assert keys != [];
    hide FromConfig, AllFaithful, IsKey, EntryLines, IsLoneMultiLine, Survives;
    if IsReadable(values, toDouble) {
      ReadableEntry(keys, values, toDouble);
      ReadBackAllFaithful(values, toDouble);
      assert ItemOf(keys, ReadBackAll(values, toDouble)).inputs == ReadBackAll(values, toDouble);
    } else {
      LoneMultiLineFails(keys, values, toDouble);
    }
  }

  // ---------------------------------------------------------------- whole files

  /** A header or an entry of a printed file. */
  datatype DocLine = SectionLine(path: Path) | DefaultLine | ValueLine(keys: Path, values: seq<string>)

  predicate IsDocLine(l: DocLine, toDouble: string -> bool) {
    match l
    case SectionLine(path) => IsSection(path)
    case DefaultLine => true
    case ValueLine(keys, values) =>
      && IsKey(keys) && Last(keys) != OPEN && Last(keys) != CLOSE
      && values != [] && AllOctets(values) && IsReadable(values, toDouble)
  }

  function PrintLine(l: DocLine, toDouble: string -> bool): seq<string>
    requires IsDocLine(l, toDouble)
  {
    match l
    case SectionLine(path) => [HeaderLine(path)]
    case DefaultLine => [HeaderLine([])]
    case ValueLine(keys, values) => EntryLines(keys, values, toDouble)
  }

  /** What the reader takes it to say. */
  function Meaning(l: DocLine, toDouble: string -> bool): (e: Event)
    requires IsDocLine(l, toDouble)
    ensures IsProper(e)
  {
    match l
    case SectionLine(path) => Header(path)
    case DefaultLine => DefaultHeader
    case ValueLine(keys, values) => Entry(DropLast(keys), Last(keys), ReadBackAll(values, toDouble))
  }

  predicate IsDocument(doc: seq<DocLine>, toDouble: string -> bool) {
    forall i | 0 <= i < |doc| :: IsDocLine(doc[i], toDouble)
  }

  /** The lines of the file. */
  function Print(doc: seq<DocLine>, toDouble: string -> bool): seq<string>
    requires IsDocument(doc, toDouble)
  {
    if doc == [] then [] else PrintLine(doc[0], toDouble) + Print(doc[1..], toDouble)
  }

  function Meanings(doc: seq<DocLine>, toDouble: string -> bool): (events: seq<Event>)
    requires IsDocument(doc, toDouble)
    ensures AllProper(events)
  {
    if doc == [] then [] else [Meaning(doc[0], toDouble)] + Meanings(doc[1..], toDouble)
  }

  /** The text-level reader is in the state of the section-level model. */
  predicate Agrees(rd: Reader, st: State) {
    rd.output == st.output && rd.section == SectionText(st.section) && (st.section == [] || IsSection(st.section))
  }

  lemma SectionParentsAgree(path: Path)
    requires path == [] || IsSection(path)
    ensures SectionParents(SectionText(path)) == Some(path)
    ensures SectionText(path) == DEFAULT <==> path == []
    ensures ToLower(SectionText(path)) == DEFAULT <==> path == []
  {
    hide GenerateParents, ToLower, Dotted, IsSection;
    PlainSectionParents(path);
    if path != [] {
      NotDefault(path);
    } else {
      LowerDefault();
    }
  }

  lemma LowerDefault()
    ensures ToLower(DEFAULT) == DEFAULT
  {
  }

  lemma EnterAgrees(rd: Reader, st: State, path: Path)
    requires Agrees(rd, st) && (path == [] || IsSection(path))
    ensures EnterSection(rd, SectionText(path)) ==
            Some(Reader(if path == [] then LeaveSection(st) else WithSection(LeaveSection(st), path), SectionText(path)))
  {
    hide SectionParents, SectionText, IsSection, WithSection, ToLower;
    SectionParentsAgree(st.section);
    SectionParentsAgree([]);
    SectionParentsAgree(path);
  }

  lemma ReadSectionLine(rd: Reader, st: State, path: Path, lines: seq<string>)
    requires Agrees(rd, st) && (path == [] || IsSection(path))
    requires lines != [] && lines[0] == HeaderLine(path)
    ensures var output := if path == [] then LeaveSection(st) else WithSection(LeaveSection(st), path);
            ReadOne(rd, lines) == Some((Reader(output, SectionText(path)), 1))
  {
    hide ReadOne, EnterSection, HeaderLine, WithSection, IsSection;
    ReadHeader(rd, path, lines);
    EnterAgrees(rd, st, path);
  }

  lemma ReadValueLine(rd: Reader, st: State, keys: Path, values: seq<string>, toDouble: string -> bool, rest: seq<string>)
    requires Agrees(rd, st) && IsDocLine(ValueLine(keys, values), toDouble)
    ensures var ls := EntryLines(keys, values, toDouble);
            ReadOne(rd, ls + rest) ==
            Some((rd.(output := Advance(st, Meaning(ValueLine(keys, values), toDouble)).output), |ls|))
  {
    hide ReadOne, AddItem, IsSection, IsKey, EntryLines, IsReadable;
    ReadPrinted(rd, st.section, keys, values, toDouble, rest);
  }

  /** Reading what is printed does what its meaning says. */
  lemma ReadDocLine(rd: Reader, st: State, l: DocLine, toDouble: string -> bool, rest: seq<string>) returns (next: Reader)
    requires Agrees(rd, st) && IsDocLine(l, toDouble)
    ensures var ls := PrintLine(l, toDouble);
            ReadOne(rd, ls + rest) == Some((next, |ls|)) && Agrees(next, Advance(st, Meaning(l, toDouble)))
  {
    hide ReadOne, AllParts, WithSection, HeaderLine, EntryLines, IsKey, IsReadable, AddItem;
    match l {
      case SectionLine(path) =>
        ReadSectionLine(rd, st, path, [HeaderLine(path)] + rest);
        next := Reader(WithSection(LeaveSection(st), path), SectionText(path));
      case DefaultLine =>
        ReadSectionLine(rd, st, [], [HeaderLine([])] + rest);
        next := Reader(LeaveSection(st), SectionText([]));
      case ValueLine(keys, values) =>
        ReadValueLine(rd, st, keys, values, toDouble, rest);
        next := rd.(output := Advance(st, Meaning(l, toDouble)).output);
    }
  }

  lemma {:induction false} ReadDocument(rd: Reader, st: State, doc: seq<DocLine>, toDouble: string -> bool) returns (end: Reader)
    requires Agrees(rd, st) && IsDocument(doc, toDouble)
    ensures ReadAll(rd, Print(doc, toDouble)) == Some(end) && Agrees(end, Run(st, Meanings(doc, toDouble)))
    decreases |doc|
  {
    if doc == [] {
      end := rd;
    } else {
      hide ReadOne, Agrees, IsDocLine, Meaning, PrintLine, Advance;
      var ls, rest := PrintLine(doc[0], toDouble), Print(doc[1..], toDouble);
      var next := ReadDocLine(rd, st, doc[0], toDouble, rest);
      end := ReadDocument(next, Advance(st, Meaning(doc[0], toDouble)), doc[1..], toDouble);
      assert (ls + rest)[|ls|..] == rest;
      assert Meanings(doc, toDouble)[1..] == Meanings(doc[1..], toDouble);
    }
  }

  lemma FinishAgrees(rd: Reader, st: State)
    requires Agrees(rd, st)
    ensures Finish(rd) == Some(Finished(st))
  {
    hide SectionParents, SectionText, IsSection;
    SectionParentsAgree(st.section);
    if st.section != [] {
      var c := Closing(st.section);
      assert rd.output + [c] + ClosingsAfter(c) == rd.output + ([c] + ClosingsAfter(c));
    }
  }

  /** The config file round trip: reading any printed file gives exactly the
      items its lines mean.  Their values are the printed values, in order, each
      under its section and the parents its key names; their markers nest if and only
      if the file is tidy. */
  lemma DocumentRoundTrip(doc: seq<DocLine>, toDouble: string -> bool)
    requires IsDocument(doc, toDouble)
    ensures var events := Meanings(doc, toDouble); var r := FromConfig(Print(doc, toDouble));
            && r == Some(Emitted(events))
            && Values(r.value) == Written(events, [])
            && (Replay(r.value, []) == Some([]) <==> Tidy(events, [], false))
  {
    hide ReadAll, Finish, Finished, Print, Replay, Tidy, Values, Written, IsDocument;
    var events := Meanings(doc, toDouble);
    var end := ReadDocument(Reader([], DEFAULT), State([], []), doc, toDouble);
    FinishAgrees(end, Run(State([], []), events));
    ValuesConserved(events);
    MarkersNest(events);
  }
}
