/** Config-file layering in external/CLI/CLI11.hpp: the files given on the command
    line are read in reverse order, and an entry only sets an option that is still
    empty.  An app without subcommands. */
module Overlay {
  import opened Text
  import opened ArgParser
  import opened OptionState
  import opened Sections

  datatype Extras = Ignored | Captured | Refused | IgnoredAll

  /** An option and its settings; `names` holds its names and flag values. */
  datatype Slot = Slot(names: Opt, setup: Setup, policy: Policy, expectedMax: nat, configurable: bool)

  /** `flagText` is the value of a flag entry, and `converts` the verdict of the
      callback on the values sent to it. */
  datatype Target = Target(
    slots: seq<Slot>, extras: Extras,
    flagText: (nat, ConfigItem) -> Result<string>, converts: (nat, seq<string>) -> bool)

  // ---------------------------------------------------------------- finding the option

  /** check_name. */
  predicate CheckName(o: Opt, name: string) {
    if |name| > 2 && name[0] == '-' && name[1] == '-' then name[2..] in o.lnames
    else if |name| > 1 && name[0] == '-' then name[1..] in o.snames
    else o.pname != [] && name == o.pname
  }

  function FindSlot(slots: seq<Slot>, name: string, i: nat): (r: nat)
    ensures r <= |slots| && (r < |slots| ==> i <= r && CheckName(slots[r].names, name))
    ensures forall k | i <= k < r && k < |slots| :: !CheckName(slots[k].names, name)
    decreases |slots| - i
  {
    if i >= |slots| then |slots| else if CheckName(slots[i].names, name) then i else FindSlot(slots, name, i + 1)
  }

  /** The option an entry is for: by long, then short, then plain name. */
  function SlotOf(slots: seq<Slot>, name: string): (r: nat)
    ensures r <= |slots|
  {
    var long := FindSlot(slots, "--" + name, 0);
    var short := if |name| == 1 then FindSlot(slots, "-" + name, 0) else |slots|;
    if long < |slots| then long else if short < |slots| then short else FindSlot(slots, name, 0)
  }

  // ---------------------------------------------------------------- one entry

  function AddedTo(s: Setup, texts: seq<string>): seq<string> {
    AddResults(s, OptionState.Option([], [], Parsing, Throw, 0), texts).results
  }

  /** A value that an option which takes no override accepts in a list. */
  predicate IsFlagText(o: Opt, text: string) {
    if o.flagValues == [] then text == "true" || text == "false" || text == "1" || text == "0" else text in o.flagValues
  }

  /** What an empty option holds after an entry for it, or Thrown. */
  function Stored(t: Target, i: nat, item: ConfigItem): Result<seq<string>>
    requires i < |t.slots|
  {
    var slot := t.slots[i];
    var s, most := slot.setup, ItemsMaxOf(slot.setup, slot.expectedMax);
    if s.expectedMin == 0 && |item.inputs| <= 1 then
      match t.flagText(i, item)
      case Thrown => Thrown
      case Ok(text) => Ok(AddedTo(s, [text]))
    else if s.expectedMin == 0 && |item.inputs| > most && slot.policy != TakeAll then
      if most > 1 || !slot.names.noOverride || exists k :: 0 <= k < |item.inputs| && !IsFlagText(slot.names, item.inputs[k])
      then Thrown
      else Ok(AddedTo(s, item.inputs))
    else
      var (o, sent) := RunCallback(s, AddResults(s, OptionState.Option([], [], Parsing, slot.policy, slot.expectedMax), item.inputs));
      if sent.Thrown? || !t.converts(i, sent.value) then Thrown else Ok(o.results)
  }

  predicate IsMarker(item: ConfigItem) {
    item.parents == [] && (item.name == OPEN || item.name == CLOSE)
  }

  /** The option that an entry is for, if it is for one. */
  function Subject(t: Target, item: ConfigItem): (r: nat)
    ensures r <= |t.slots|
  {
    if item.parents != [] || IsMarker(item) then |t.slots| else SlotOf(t.slots, item.name)
  }

  /** _parse_single_config and the check of _parse_config: the new results, or Thrown. */
  function ApplyItem(t: Target, results: seq<seq<string>>, item: ConfigItem): (r: Result<seq<seq<string>>>)
    requires |results| == |t.slots|
    ensures r.Ok? ==> |r.value| == |results|
  {
    var i := Subject(t, item);
    if IsMarker(item) then Ok(results)
    else if i == |t.slots| then if t.extras == Refused then Thrown else Ok(results)
    else if !t.slots[i].configurable then
      if t.extras == IgnoredAll then Ok(results) else Thrown
    else if results[i] != [] then Ok(results)
    else
      match Stored(t, i, item)
      case Thrown => Thrown
      case Ok(values) => Ok(results[i := values])
  }

  function ApplyItems(t: Target, results: seq<seq<string>>, items: seq<ConfigItem>): (r: Result<seq<seq<string>>>)
    requires |results| == |t.slots|
    ensures r.Ok? ==> |r.value| == |results|
    decreases |items|
  {
    if items == [] then Ok(results)
    else
      match ApplyItem(t, results, items[0])
      case Thrown => Thrown
      case Ok(next) => ApplyItems(t, next, items[1..])
  }

  function ApplyFiles(t: Target, results: seq<seq<string>>, files: seq<seq<ConfigItem>>): (r: Result<seq<seq<string>>>)
    requires |results| == |t.slots|
    ensures r.Ok? ==> |r.value| == |results|
    decreases |files|
  {
    if files == [] then Ok(results)
    else
      match ApplyItems(t, results, files[0])
      case Thrown => Thrown
      case Ok(next) => ApplyFiles(t, next, files[1..])
  }

  // ---------------------------------------------------------------- what a file says

  /** The value an entry has for option `i`; empty if it is not for it. */
  function EntryValue(t: Target, i: nat, item: ConfigItem): seq<string>
    requires i < |t.slots|
  {
    if Subject(t, item) == i && t.slots[i].configurable && Stored(t, i, item).Ok? then Stored(t, i, item).value else []
  }

  /** The first value a file has for option `i`. */
  function FileValue(t: Target, i: nat, items: seq<ConfigItem>): seq<string>
    requires i < |t.slots|
  {
    if items == [] then []
    else if EntryValue(t, i, items[0]) != [] then EntryValue(t, i, items[0])
    else FileValue(t, i, items[1..])
  }

  /** Last writer wins: the value of the last file that has one. */
  function Overlaid(t: Target, i: nat, files: seq<seq<ConfigItem>>): seq<string>
    requires i < |t.slots|
  {
    if files == [] then []
    else
      var last := FileValue(t, i, files[|files| - 1]);
      if last != [] then last else Overlaid(t, i, files[..|files| - 1])
  }

  /** First writer wins. */
  function FirstValue(t: Target, i: nat, files: seq<seq<ConfigItem>>): seq<string>
    requires i < |t.slots|
  {
    if files == [] then []
    else if FileValue(t, i, files[0]) != [] then FileValue(t, i, files[0])
    else FirstValue(t, i, files[1..])
  }

  function Or(a: seq<string>, b: seq<string>): seq<string> {
    if a != [] then a else b
  }

  lemma ApplyItemValue(t: Target, results: seq<seq<string>>, item: ConfigItem, i: nat)
    requires |results| == |t.slots| && i < |results| && ApplyItem(t, results, item).Ok?
    ensures ApplyItem(t, results, item).value[i] == Or(results[i], EntryValue(t, i, item))
  {
    hide Stored, SlotOf;
  }

  lemma {:induction false} ApplyItemsValue(t: Target, results: seq<seq<string>>, items: seq<ConfigItem>, i: nat)
    requires |results| == |t.slots| && i < |results| && ApplyItems(t, results, items).Ok?
    ensures ApplyItems(t, results, items).value[i] == Or(results[i], FileValue(t, i, items))
    decreases |items|
  {
    if items != [] {
      hide ApplyItem, EntryValue;
      ApplyItemValue(t, results, items[0], i);
      ApplyItemsValue(t, ApplyItem(t, results, items[0]).value, items[1..], i);
    }
  }

  lemma {:induction false} ApplyFilesValue(t: Target, results: seq<seq<string>>, files: seq<seq<ConfigItem>>, i: nat)
    requires |results| == |t.slots| && i < |results| && ApplyFiles(t, results, files).Ok?
    ensures ApplyFiles(t, results, files).value[i] == Or(results[i], FirstValue(t, i, files))
    decreases |files|
  {
    if files != [] {
      hide ApplyItems, FileValue;
      ApplyItemsValue(t, results, files[0], i);
      ApplyFilesValue(t, ApplyItems(t, results, files[0]).value, files[1..], i);
    }
  }

  /** Reading backwards, the first value is the last one forwards. */
  lemma {:induction false} FirstIsLast(t: Target, i: nat, files: seq<seq<ConfigItem>>)
    requires i < |t.slots|
    ensures FirstValue(t, i, Reversed(files)) == Overlaid(t, i, files)
    decreases |files|
  {
    if files != [] {
      hide FileValue;
      FirstIsLast(t, i, files[..|files| - 1]);
      assert Reversed(files)[1..] == Reversed(files[..|files| - 1]);
    }
  }

  // ---------------------------------------------------------------- the files given

  /** Settings of the config option: one file name per use, kept and read in reverse. */
  predicate IsConfigOption(s: Setup) {
    s.validators == [] && s.typeMin == 1 && s.typeMax == 1
  }

  /** The file names of the config option: those given, or its default value. */
  function Given(s: Setup, given: seq<string>): seq<string> {
    if s.forced && given == [] then Added(s, s.defaultStr) else given
  }

  /** The names the config option hands on, after run_callback. */
  function FilesSent(s: Setup, expectedMax: nat, given: seq<string>): Result<seq<string>> {
    RunCallback(s, OptionState.Option(given, [], Parsing, Reverse, expectedMax)).1
  }

  /** The conversion to a list of names: the marker alone is the empty list, and in
      front of a separator it is the only element. */
  function AsNames(texts: seq<string>): seq<string> {
    if texts == ["{}"] then []
    else if |texts| == 2 && texts[0] == "{}" && IsSeparator(texts[1]) then ["{}"]
    else texts
  }

  /** The last names, as many as are expected and at least one. */
  function Kept(s: Setup, expectedMax: nat, names: seq<string>): (kept: seq<string>)
    ensures kept == [] <==> names == []
  {
    names[|names| - TrimSize(s, expectedMax, |names|)..]
  }

  /** The files that are read, in the order given: none if the last name is empty
      or stands for an empty list. */
  function FilesUsed(s: Setup, kept: seq<string>): seq<string> {
    if kept == [] || kept[|kept| - 1] == [] || (kept == ["{}"] && s.expectedMin == 0) then []
    else if |kept| == 2 && kept[1] == "{}" && IsSeparator(kept[0]) then ["{}"]
    else kept
  }

  lemma ReducedNames(s: Setup, expectedMax: nat, names: seq<string>)
    requires IsConfigOption(s)
    ensures var kept, r := Kept(s, expectedMax, names), Reduce(s, Reverse, expectedMax, names, |names|);
            && r.Ok?
            && (if r.value == [] then names else r.value) ==
               if kept == ["{}"] && s.expectedMin > 0 then ["{}", "%%"] else Reversed(kept)
  {
    var kept := Kept(s, expectedMax, names);
    if |kept| == 1 {
      assert Reversed(kept) == kept;
      if |names| == 1 {
        assert kept == names;
      }
    } else if kept == [] {
      assert Reversed(kept) == [];
    } else {
      assert |Reversed(kept)| == |kept| > 1;
    }
  }

  lemma NamesSent(s: Setup, expectedMax: nat, given: seq<string>)
    requires IsConfigOption(s)
    ensures var kept := Kept(s, expectedMax, Given(s, given));
            FilesSent(s, expectedMax, given) ==
            Ok(if kept == ["{}"] && s.expectedMin > 0 then ["{}", "%%"] else Reversed(kept))
  {
    hide Reduce, Added, TrimSize, Kept;
    ReducedNames(s, expectedMax, Given(s, given));
    if given == [] {
      AddDefault(s, OptionState.Option(given, [], Parsing, Reverse, expectedMax));
    }
  }

  /** The names are read in reverse. */
  lemma FilesReadInReverse(s: Setup, expectedMax: nat, given: seq<string>)
    requires IsConfigOption(s)
    ensures var used, sent := FilesUsed(s, Kept(s, expectedMax, Given(s, given))), FilesSent(s, expectedMax, given);
            && sent.Ok?
            && var names := AsNames(sent.value);
               if names == [] || names[0] == [] then used == [] else used != [] && names == Reversed(used)
  {
    hide FilesSent, Kept, Given, IsConfigOption;
    NamesSent(s, expectedMax, given);
    var kept := Kept(s, expectedMax, Given(s, given));
    var back := Reversed(kept);
    if |kept| == 1 {
      assert back == kept;
    } else if |kept| == 2 {
      assert back[0] == kept[1] && back[1] == kept[0];
    }
    assert Reversed(["{}"]) == ["{}"];
    if kept != [] {
      assert back[0] == kept[|kept| - 1];
    }
  }

  /** The loop of _process_config_file over the file names.  A file that is not
      there throws if it `must` be there, and is passed over if not. */
  function ProcessNames(t: Target, load: string -> Text.Option<seq<ConfigItem>>, must: bool, results: seq<seq<string>>,
                        names: seq<string>): (r: Result<seq<seq<string>>>)
    requires |results| == |t.slots|
    ensures r.Ok? ==> |r.value| == |results|
    decreases |names|
  {
    if names == [] then Ok(results)
    else
      match load(names[0])
      case None => if must then Thrown else ProcessNames(t, load, must, results, names[1..])
      case Some(items) =>
        match ApplyItems(t, results, items)
        case Thrown => Thrown
        case Ok(next) => ProcessNames(t, load, must, next, names[1..])
  }

  /** _process_config_file. */
  function Process(t: Target, s: Setup, expectedMax: nat, required: bool, load: string -> Text.Option<seq<ConfigItem>>,
                   results: seq<seq<string>>, given: seq<string>): (r: Result<seq<seq<string>>>)
    requires |results| == |t.slots|
    ensures r.Ok? ==> |r.value| == |results|
  {
    match FilesSent(s, expectedMax, given)
    case Thrown => Thrown
    case Ok(texts) =>
      var names := AsNames(texts);
      if names == [] || names[0] == [] then if required then Thrown else Ok(results)
      else ProcessNames(t, load, required || given != [], results, names)
  }

  predicate AllLoad(load: string -> Text.Option<seq<ConfigItem>>, names: seq<string>) {
    forall k | 0 <= k < |names| :: load(names[k]).Some?
  }

  /** What the files that are there say, in order. */
  function Loaded(load: string -> Text.Option<seq<ConfigItem>>, names: seq<string>): (files: seq<seq<ConfigItem>>) {
    if names == [] then []
    else
      var last := names[|names| - 1];
      Loaded(load, names[..|names| - 1]) + if load(last).Some? then [load(last).value] else []
  }

  lemma ReversedSnoc<T>(s: seq<T>, last: seq<T>)
    requires |last| <= 1
    ensures Reversed(s + last) == last + Reversed(s)
  {
  }

  lemma {:induction false} ProcessIsApply(t: Target, load: string -> Text.Option<seq<ConfigItem>>, must: bool,
                                          results: seq<seq<string>>, used: seq<string>)
    requires |results| == |t.slots| && ProcessNames(t, load, must, results, Reversed(used)).Ok?
    ensures must ==> AllLoad(load, used)
    ensures ApplyFiles(t, results, Reversed(Loaded(load, used))) == ProcessNames(t, load, must, results, Reversed(used))
    decreases |used|
  {
    if used != [] {
      hide ApplyItems;
      var last, before := used[|used| - 1], used[..|used| - 1];
      assert Reversed(used)[0] == last && Reversed(used)[1..] == Reversed(before);
      ReversedSnoc(Loaded(load, before), if load(last).Some? then [load(last).value] else []);
      var files := Reversed(Loaded(load, used));
      if load(last).Some? {
        assert files[0] == load(last).value && files[1..] == Reversed(Loaded(load, before));
        ProcessIsApply(t, load, must, ApplyItems(t, results, load(last).value).value, before);
      } else {
        assert files == Reversed(Loaded(load, before));
        ProcessIsApply(t, load, must, results, before);
      }
      assert forall k | 0 <= k < |used| - 1 :: used[k] == before[k];
    }
  }

  /** Overlay precedence: after any command line and any config files that raise
      no error, each option holds its command-line values if it has any, and
      otherwise the first value in the last file that has one, among the files used.
      Reading in reverse with the first writer winning is the last writer winning. */
  lemma OverlayPrecedence(t: Target, s: Setup, expectedMax: nat, required: bool,
                          load: string -> Text.Option<seq<ConfigItem>>,
                          results: seq<seq<string>>, given: seq<string>, i: nat)
    requires |results| == |t.slots| && i < |t.slots| && IsConfigOption(s)
    ensures var used := FilesUsed(s, Kept(s, expectedMax, Given(s, given)));
            var r := Process(t, s, expectedMax, required, load, results, given);
            r.Ok? ==>
              && (required ==> used != [])
              && (required || given != [] ==> AllLoad(load, used))
              && r.value[i] == Or(results[i], Overlaid(t, i, Loaded(load, used)))
  {
    hide FilesSent, ProcessNames, ApplyFiles, FirstValue, Kept, Given, FilesUsed, AsNames, IsConfigOption, AllLoad;
    var used := FilesUsed(s, Kept(s, expectedMax, Given(s, given)));
    FilesReadInReverse(s, expectedMax, given);
    if Process(t, s, expectedMax, required, load, results, given).Ok? {
      if used == [] {
        NothingUsed(t, load, results, i);
      } else {
        ProcessIsApply(t, load, required || given != [], results, used);
        ApplyFilesValue(t, results, Reversed(Loaded(load, used)), i);
        FirstIsLast(t, i, Loaded(load, used));
      }
    }
  }

  lemma NothingUsed(t: Target, load: string -> Text.Option<seq<ConfigItem>>, results: seq<seq<string>>, i: nat)
    requires |results| == |t.slots| && i < |t.slots|
    ensures AllLoad(load, []) && results[i] == Or(results[i], Overlaid(t, i, Loaded(load, [])))
  {
  }

  // ---------------------------------------------------------------- in place

  class ConfigTarget {
    const t: Target
    var results: seq<seq<string>>

    constructor (t: Target, results: seq<seq<string>>)
      requires |results| == |t.slots|
      ensures this.t == t && this.results == results
    {
      this.t := t;
      this.results := results;
    }

    /** The result of a step, as an outcome and the new results. */
    ghost predicate Became(r: Result<seq<seq<string>>>, ok: bool)
      reads this
    {
      ok == r.Ok? && (ok ==> results == r.value)
    }

    /** _parse_single_config. */
    method ParseItem(item: ConfigItem) returns (ok: bool)
      requires |results| == |t.slots|
      modifies `results
      ensures |results| == |t.slots| && Became(ApplyItem(t, old(results), item), ok)
    {
      hide Stored, SlotOf;
      if IsMarker(item) {
        return true;
      }
      var i := Subject(t, item);
      if i == |t.slots| {
        return t.extras != Refused;
      }
      if !t.slots[i].configurable {
        return t.extras == IgnoredAll;
      }
      if results[i] == [] {
        var stored := Stored(t, i, item);
        if stored.Thrown? {
          return false;
        }
        results := results[i := stored.value];
      }
      ok := true;
    }

    /** _parse_config. */
    method ParseItems(items: seq<ConfigItem>) returns (ok: bool)
      requires |results| == |t.slots|
      modifies `results
      ensures |results| == |t.slots| && Became(ApplyItems(t, old(results), items), ok)
    {
      hide ApplyItem;
      ghost var goal := ApplyItems(t, results, items);
      assert items[0..] == items;
      for k := 0 to |items|
        invariant |results| == |t.slots| && ApplyItems(t, results, items[k..]) == goal
      {
        assert items[k..][0] == items[k] && items[k..][1..] == items[k + 1..];
        ok := ParseItem(items[k]);
        if !ok {
          return;
        }
      }
      ok := true;
    }

    /** _process_config_file. */
    method ProcessConfigFiles(s: Setup, expectedMax: nat, required: bool,
                              load: string -> Text.Option<seq<ConfigItem>>, given: seq<string>) returns (ok: bool)
      requires |results| == |t.slots|
      modifies `results
      ensures |results| == |t.slots|
      ensures Became(Process(t, s, expectedMax, required, load, old(results), given), ok)
    {
      hide FilesSent, ApplyItems;
      var texts := FilesSent(s, expectedMax, given);
      if texts.Thrown? {
        return false;
      }
      var names := AsNames(texts.value);
      if names == [] || names[0] == [] {
        return !required;
      }
      var must := required || given != [];
      ghost var goal := ProcessNames(t, load, must, results, names);
      assert names[0..] == names;
      for k := 0 to |names|
        invariant |results| == |t.slots| && ProcessNames(t, load, must, results, names[k..]) == goal
      {
        assert names[k..][0] == names[k] && names[k..][1..] == names[k + 1..];
        var items := load(names[k]);
        if items.None? {
          if must {
            return false;
          }
        } else {
          ok := ParseItems(items.value);
          if !ok {
            return;
          }
        }
      }
      ok := true;
    }
  }
}
