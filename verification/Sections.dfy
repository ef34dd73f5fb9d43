/** Section markers of the config reader in external/CLI/CLI11.hpp: how
    checkParentSegments and from_config turn section headers into nested `++` and
    `--` items, and when those items nest properly. */
module Sections {
  import opened Text

  type Path = seq<string>

  /** The default of `maximumLayers`: entries nested deeper are skipped. */
  const MAXIMUM_LAYERS: nat := 255

  datatype ConfigItem = ConfigItem(parents: Path, name: string, inputs: seq<string>)

  const OPEN := "++"
  const CLOSE := "--"

  function Opening(path: Path): ConfigItem {
    ConfigItem(path, OPEN, [])
  }

  function Closing(path: Path): ConfigItem {
    ConfigItem(path, CLOSE, [])
  }

  function Last<T>(s: seq<T>): T
    requires s != []
  {
    s[|s| - 1]
  }

  function DropLast<T>(s: seq<T>): seq<T>
    requires s != []
  {
    s[..|s| - 1]
  }

  // ---------------------------------------------------------------- emission

  /** Copies of a closing item for its path and its ancestors, down to length `lo` + 1. */
  function Closings(item: ConfigItem, lo: nat): seq<ConfigItem>
    decreases |item.parents|
  {
    if |item.parents| <= lo then [] else [item] + Closings(item.(parents := DropLast(item.parents)), lo)
  }

  /** Opening items for the prefixes of a path longer than `lo`. */
  function Openings(path: Path, lo: nat): seq<ConfigItem>
    decreases |path| - lo
  {
    if lo >= |path| then [] else [Opening(path[..lo + 1])] + Openings(path, lo + 1)
  }

  /** Length of the longest common prefix. */
  function Common(p: Path, q: Path): (n: nat)
    ensures n <= |p| && n <= |q| && forall i | 0 <= i < n :: p[i] == q[i]
    ensures n < |p| && n < |q| ==> p[n] != q[n]
  {
    if p != [] && q != [] && p[0] == q[0] then 1 + Common(p[1..], q[1..]) else 0
  }

  /** What checkParentSegments makes of the items so far when section `path` starts. */
  function WithSection(output: seq<ConfigItem>, path: Path): seq<ConfigItem>
    requires path != []
  {
    if output != [] && Last(output).name == CLOSE then
      var back := Last(output);
      if |path| > 1 then
        var keep := Common(back.parents, DropLast(path));
        DropLast(output) + Closings(back, keep) + Openings(path, keep)
      else
        output + ClosingsAfter(back) + Openings(path, 0)
    else
      output + Openings(path, 0)
  }

  /** The ancestors' closing items that follow a closing item already written. */
  function ClosingsAfter(back: ConfigItem): seq<ConfigItem> {
    if back.parents == [] then [] else Closings(back.(parents := DropLast(back.parents)), 0)
  }

  /** `r` is `items` with the closing item at its end repeated for its ancestors, down to length `n`. */
  predicate ClosedTo(items: seq<ConfigItem>, r: seq<ConfigItem>, n: nat) {
    items != [] && r != [] && n <= |Last(items).parents| &&
    Last(r) == Last(items).(parents := Last(items).parents[..n]) &&
    DropLast(r) == DropLast(items) + Closings(Last(items), n)
  }

  /** The copying loops of checkParentSegments. */
  method CloseAncestors(items: seq<ConfigItem>, size: nat) returns (r: seq<ConfigItem>)
    requires items != [] && size >= 1
    ensures var n := |Last(items).parents|; ClosedTo(items, r, if n >= size then size - 1 else n)
  {
    r := items;
    ghost var n: nat := |Last(items).parents|;
    assert ClosedTo(items, r, n);
    while |Last(r).parents| >= size
      invariant ClosedTo(items, r, n)
      invariant n < |Last(items).parents| ==> n >= size - 1
      decreases n
    {
      var back := Last(r);
      ClosedStep(items, r, n);
      r := r + [back.(parents := DropLast(back.parents))];
      n := n - 1;
    }
  }

  lemma ClosedStep(items: seq<ConfigItem>, r: seq<ConfigItem>, n: nat)
    requires ClosedTo(items, r, n) && n > 0
    ensures r == DropLast(items) + Closings(Last(items), n - 1)
    ensures ClosedTo(items, r + [Last(r).(parents := DropLast(Last(r).parents))], n - 1)
  {
    ClosingsStep(Last(items), n - 1);
    assert r == DropLast(r) + [Last(r)];
    var next := r + [Last(r).(parents := DropLast(Last(r).parents))];
    assert DropLast(next) == r;
    assert DropLast(Last(items).parents[..n]) == Last(items).parents[..n - 1];
  }

  lemma ClosedTrans(items: seq<ConfigItem>, mid: seq<ConfigItem>, m: nat, r: seq<ConfigItem>, n: nat)
    requires ClosedTo(items, mid, m) && ClosedTo(mid, r, n)
    ensures ClosedTo(items, r, n)
  {
    ClosingsSplit(Last(items), m, n);
    assert Last(items).parents[..m][..n] == Last(items).parents[..n];
  }

  /** One more ancestor closed. */
  lemma {:induction false} ClosingsStep(item: ConfigItem, lo: nat)
    requires lo < |item.parents|
    ensures Closings(item, lo) == Closings(item, lo + 1) + [item.(parents := item.parents[..lo + 1])]
    decreases |item.parents|
  {
    if |item.parents| == lo + 1 {
      assert item.parents[..lo + 1] == item.parents;
      assert Closings(item, lo) == [item] + Closings(item.(parents := DropLast(item.parents)), lo);
    } else {
      var up := item.(parents := DropLast(item.parents));
      ClosingsStep(up, lo);
      assert up.parents[..lo + 1] == item.parents[..lo + 1];
    }
  }

  /** The first part of checkParentSegments: which levels the last closing item
      closes, and how many levels of the new section stay open. */
  method CloseForSection(items: seq<ConfigItem>, parents: Path) returns (output: seq<ConfigItem>, common: nat)
    requires parents != [] && items != [] && Last(items).name == CLOSE
    ensures common < |parents| && output + Openings(parents, common) == WithSection(items, parents)
  {
    var size := if |parents| > 1 then |parents| else 2;
    output := CloseAncestors(items, size);
    common := 0;
    if |parents| > 1 {
      var path := Last(output).parents;
      while common < |path| && path[common] == parents[common]
        invariant common <= |path| && forall i | 0 <= i < common :: path[i] == parents[i]
      {
        common := common + 1;
      }
      CommonUnique(Last(items).parents, DropLast(parents), common);
      if common == |path| {
        output := DropLast(output);
      } else {
        var first := output;
        output := CloseAncestors(first, common + 2);
        ClosedTrans(items, first, |path|, output, common + 1);
        ClosedStep(items, output, common + 1);
      }
    } else {
      CloseAll(items, output);
    }
  }

  lemma CloseAll(items: seq<ConfigItem>, r: seq<ConfigItem>)
    requires items != [] && ClosedTo(items, r, if |Last(items).parents| >= 2 then 1 else |Last(items).parents|)
    ensures r == items + ClosingsAfter(Last(items))
  {
    var back := Last(items);
    assert items == DropLast(items) + [back];
    if back.parents != [] {
      ClosedStep(items, r, 1);
      assert Closings(back, 0) == [back] + ClosingsAfter(back);
    } else {
      assert r == DropLast(r) + [Last(r)];
      assert back.parents[..0] == back.parents;
    }
  }

  /** checkParentSegments, from the parents of the new section on. */
  method CheckParentSegments(items: seq<ConfigItem>, parents: Path) returns (output: seq<ConfigItem>)
    requires parents != []
    ensures output == WithSection(items, parents)
  {
    output := items;
    var common := 0;
    if output != [] && Last(output).name == CLOSE {
      output, common := CloseForSection(items, parents);
    }
    for ii := common to |parents| - 1
      invariant output + Openings(parents, ii) == WithSection(items, parents)
    {
      output := output + [Opening(parents[..ii + 1])];
    }
    assert parents[..|parents|] == parents;
    assert Openings(parents, |parents| - 1) == [Opening(parents)];
    output := output + [Opening(parents)];
  }

  lemma CommonUnique(p: Path, q: Path, n: nat)
    requires n <= |p| && n <= |q| && forall i | 0 <= i < n :: p[i] == q[i]
    requires n == |p| || n == |q| || p[n] != q[n]
    ensures Common(p, q) == n
  {
  }

  lemma {:induction false} ClosingsSplit(item: ConfigItem, mid: nat, lo: nat)
    requires lo <= mid <= |item.parents|
    ensures Closings(item, lo) == Closings(item, mid) + Closings(item.(parents := item.parents[..mid]), lo)
    decreases |item.parents|
  {
    if |item.parents| == mid {
      assert item.parents[..mid] == item.parents;
    } else {
      var up := item.(parents := DropLast(item.parents));
      ClosingsSplit(up, mid, lo);
      assert up.parents[..mid] == item.parents[..mid];
    }
  }

  // ---------------------------------------------------------------- a whole file

  /** What the lines of a file say.  An entry with a dotted key names parents
      below its section. */
  datatype Event = Header(path: Path) | DefaultHeader | Entry(more: Path, name: string, inputs: seq<string>)

  /** The items so far and the parents of the current section, empty for `default`. */
  datatype State = State(output: seq<ConfigItem>, section: Path)

  /** The end of a section, written when the next header is met. */
  function LeaveSection(st: State): seq<ConfigItem> {
    if st.section != [] then st.output + [Closing(st.section)] else st.output
  }

  /** An entry goes into the last item if that has the same name and parents. */
  function AddItem(output: seq<ConfigItem>, parents: Path, name: string, inputs: seq<string>): seq<ConfigItem> {
    if output != [] && name == Last(output).name && parents == Last(output).parents then
      DropLast(output) + [Last(output).(inputs := Last(output).inputs + inputs)]
    else
      output + [ConfigItem(parents, name, inputs)]
  }

  predicate IsProper(e: Event) {
    match e
    case Header(path) => path != []
    case DefaultHeader => true
    case Entry(_, name, _) => name != OPEN && name != CLOSE
  }

  /** The event is an entry that is not nested too deep to be stored. */
  predicate IsStored(e: Event, section: Path) {
    e.Entry? && |section + e.more| <= MAXIMUM_LAYERS
  }

  function Advance(st: State, e: Event): State
    requires IsProper(e)
  {
    match e
    case Header(path) => State(WithSection(LeaveSection(st), path), path)
    case DefaultHeader => State(LeaveSection(st), [])
    case Entry(more, name, inputs) =>
      if IsStored(e, st.section) then st.(output := AddItem(st.output, st.section + more, name, inputs)) else st
  }

  predicate AllProper(events: seq<Event>) {
    forall i | 0 <= i < |events| :: IsProper(events[i])
  }

  function Run(st: State, events: seq<Event>): State
    requires AllProper(events)
    decreases |events|
  {
    if events == [] then st else Run(Advance(st, events[0]), events[1..])
  }

  /** The closing items at the end of the file. */
  function Finished(st: State): seq<ConfigItem> {
    if st.section != [] then st.output + Closings(Closing(st.section), 0) else st.output
  }

  function Emitted(events: seq<Event>): seq<ConfigItem>
    requires AllProper(events)
  {
    Finished(Run(State([], []), events))
  }

  // ---------------------------------------------------------------- replay

  /** One item against the path of sections that are open: an opening item adds
      one component to it, a closing item names it and takes off its last component,
      and any other item belongs to it or, by a dotted key, below it. */
  function ReplayItem(item: ConfigItem, open: Path): Option<Path> {
    if item.name == OPEN then
      if item.parents != [] && DropLast(item.parents) == open then Some(item.parents) else None
    else if item.name == CLOSE then
      if open != [] && item.parents == open then Some(DropLast(open)) else None
    else
      if open <= item.parents then Some(open) else None
  }

  function Replay(items: seq<ConfigItem>, open: Path): Option<Path> {
    if items == [] then Some(open)
    else
      match ReplayItem(items[0], open)
      case None => None
      case Some(next) => Replay(items[1..], next)
  }

  lemma {:induction false} ReplayConcat(a: seq<ConfigItem>, b: seq<ConfigItem>, open: Path)
    ensures Replay(a + b, open) ==
            match Replay(a, open)
            case None => None
            case Some(mid) => Replay(b, mid)
  {
    if a == [] {
      assert a + b == b;
    } else {
      assert (a + b)[1..] == a[1..] + b;
      var r := ReplayItem(a[0], open);
      if r.Some? {
        ReplayConcat(a[1..], b, r.value);
      }
    }
  }

  lemma {:induction false} ReplayClosings(path: Path, lo: nat)
    requires lo <= |path|
    ensures Replay(Closings(Closing(path), lo), path) == Some(path[..lo])
    decreases |path|
  {
    if |path| == lo {
      assert path[..lo] == path;
    } else {
      var up := DropLast(path);
      ReplayClosings(up, lo);
      assert up[..lo] == path[..lo];
      var c := Closings(Closing(path), lo);
      assert c == [Closing(path)] + Closings(Closing(up), lo);
      assert c[1..] == Closings(Closing(up), lo);
    }
  }

  lemma {:induction false} ReplayOpenings(path: Path, lo: nat)
    requires lo <= |path|
    ensures Replay(Openings(path, lo), path[..lo]) == Some(path)
    decreases |path| - lo
  {
    if lo == |path| {
      assert path[..lo] == path;
    } else {
      ReplayOpenings(path, lo + 1);
      assert DropLast(path[..lo + 1]) == path[..lo];
      assert Openings(path, lo)[1..] == Openings(path, lo + 1);
    }
  }

  lemma ClosingsHead(path: Path)
    requires path != []
    ensures Closings(Closing(path), 0) == [Closing(path)] + ClosingsAfter(Closing(path))
  {
  }

  /** A new section after a closing item: whatever that item left open, the
      result has exactly the new section open. */
  lemma SectionAfterClosing(before: seq<ConfigItem>, left: Path, path: Path)
    requires left != [] && path != [] && Replay(before, []) == Some(left)
    ensures Replay(WithSection(before + [Closing(left)], path), []) == Some(path)
  {
    hide Replay, Closings, Openings;
    var output := before + [Closing(left)];
    assert DropLast(output) == before;
    var keep := if |path| > 1 then Common(left, DropLast(path)) else 0;
    var w := before + (Closings(Closing(left), keep) + Openings(path, keep));
    ClosingsHead(left);
    assert WithSection(output, path) == w;
    assert left[..keep] == path[..keep];
    ReplayClosings(left, keep);
    ReplayOpenings(path, keep);
    ReplayConcat(Closings(Closing(left), keep), Openings(path, keep), left);
    ReplayConcat(before, Closings(Closing(left), keep) + Openings(path, keep), []);
  }

  // ---------------------------------------------------------------- when the markers nest

  /** What the run has left open: `section`, or, back in `default`, the ancestors
      of the section that was left; then the last item is the one that closed it. */
  ghost predicate Sound(st: State, pending: bool) {
    exists open :: Replay(st.output, []) == Some(open) &&
                   (st.section != [] ==> open == st.section && !pending) &&
                   (st.section == [] ==> (open != [] <==> pending)) &&
                   (st.output != [] && Last(st.output).name == CLOSE ==> ClosedLast(st.output)) &&
                   (pending ==> st.output != [] && Last(st.output).name == CLOSE)
  }

  /** The last item closes a section that the items before it had open. */
  predicate ClosedLast(output: seq<ConfigItem>) {
    output != [] && Last(output).parents != [] && Last(output) == Closing(Last(output).parents) &&
    Replay(DropLast(output), []) == Some(Last(output).parents)
  }

  /** Some item, other than a closing one, does not fit the path that is open where it stands. */
  ghost predicate Broken(output: seq<ConfigItem>) {
    exists i :: 0 <= i < |output| && output[i].name != CLOSE && Replay(output[..i + 1], []) == None
  }

  /** In `default` with levels of a nested section open that no later item closes. */
  predicate Stuck(st: State) {
    st.section == [] && st.output != [] && Last(st.output).name != CLOSE &&
    Replay(st.output, []).Some? && Replay(st.output, []) != Some([])
  }

  /** Whether levels of a nested section are still open after `e`, in `default`. */
  function Pending(section: Path, pending: bool, e: Event): bool {
    match e
    case Header(_) => false
    case DefaultHeader => if section != [] then |section| > 1 else pending
    case Entry(_, _, _) => pending
  }

  function SectionAfter(section: Path, e: Event): Path {
    match e
    case Header(path) => path
    case DefaultHeader => []
    case Entry(_, _, _) => section
  }

  /** A return to `[default]` from a nested section is followed by another
      section before the next entry or the end of the file. */
  predicate Tidy(events: seq<Event>, section: Path, pending: bool) {
    if events == [] then !pending
    else
      (IsStored(events[0], section) ==> !pending) &&
      Tidy(events[1..], SectionAfter(section, events[0]), Pending(section, pending, events[0]))
  }

  lemma LeaveSound(st: State, pending: bool)
    requires Sound(st, pending) && st.section != []
    ensures ClosedLast(LeaveSection(st)) && Replay(LeaveSection(st), []) == Some(DropLast(st.section))
  {
    var output := LeaveSection(st);
    assert DropLast(output) == st.output;
    ReplayConcat(st.output, [Closing(st.section)], []);
    assert [Closing(st.section)][1..] == [];
  }

  lemma HeaderSound(st: State, pending: bool, path: Path)
    requires Sound(st, pending) && path != []
    ensures Sound(Advance(st, Header(path)), false)
  {
    var output := LeaveSection(st);
    var w := WithSection(output, path);
    if st.section != [] {
      LeaveSound(st, pending);
    }
    if output != [] && Last(output).name == CLOSE {
      assert output == DropLast(output) + [Closing(Last(output).parents)];
      SectionAfterClosing(DropLast(output), Last(output).parents, path);
    } else {
      assert Replay(output, []) == Some([]);
      assert path[..0] == [];
      ReplayOpenings(path, 0);
      ReplayConcat(output, Openings(path, 0), []);
    }
    WithSectionLast(output, path);
  }

  lemma {:induction false} OpeningsLast(path: Path, lo: nat)
    requires lo < |path|
    ensures Openings(path, lo) != [] && Last(Openings(path, lo)) == Opening(path)
    decreases |path| - lo
  {
    if lo + 1 < |path| {
      OpeningsLast(path, lo + 1);
    } else {
      assert path[..lo + 1] == path;
    }
  }

  lemma WithSectionLast(output: seq<ConfigItem>, path: Path)
    requires path != []
    ensures WithSection(output, path) != [] && Last(WithSection(output, path)) == Opening(path)
  {
    var keep := if output != [] && |path| > 1 then Common(Last(output).parents, DropLast(path)) else 0;
    OpeningsLast(path, keep);
    OpeningsLast(path, 0);
  }

  lemma AddKeepsOpen(output: seq<ConfigItem>, parents: Path, name: string, inputs: seq<string>, open: Path)
    requires Replay(output, []) == Some(open) && open <= parents && name != OPEN && name != CLOSE
    ensures var r := AddItem(output, parents, name, inputs);
            r != [] && Last(r).name == name && Replay(r, []) == Some(open)
  {
    hide Replay;
    var r := AddItem(output, parents, name, inputs);
    assert r == DropLast(r) + [Last(r)];
    if |r| == |output| {
      assert output == DropLast(output) + [Last(output)];
      assert DropLast(r) == DropLast(output);
      ReplayIgnoresInputs(DropLast(output), Last(output), Last(r));
    } else {
      assert DropLast(r) == output;
      ReplayOne(Last(r), open);
      ReplayConcat(output, [Last(r)], []);
    }
  }

  lemma ReplayOne(item: ConfigItem, open: Path)
    ensures Replay([item], open) == ReplayItem(item, open)
  {
    assert [item][1..] == [];
  }

  lemma EntrySound(st: State, e: Event)
    requires Sound(st, false) && IsProper(e) && IsStored(e, st.section)
    ensures Sound(Advance(st, e), false)
  {
    hide Replay, AddItem, ClosedLast;
    AddKeepsOpen(st.output, st.section + e.more, e.name, e.inputs, st.section);
  }

  lemma StepSound(st: State, e: Event, pending: bool)
    requires Sound(st, pending) && IsProper(e) && (IsStored(e, st.section) ==> !pending)
    ensures Sound(Advance(st, e), Pending(st.section, pending, e))
  {
    match e {
      case Header(path) => HeaderSound(st, pending, path);
      case DefaultHeader => if st.section != [] { LeaveSound(st, pending); }
      case Entry(_, _, _) => if IsStored(e, st.section) { EntrySound(st, e); }
    }
  }

  /** Nothing that comes later makes the items nest. */
  ghost predicate Doomed(st: State) {
    Broken(st.output) || Stuck(st)
  }

  lemma AddedBreaksOrFits(output: seq<ConfigItem>, item: ConfigItem, open: Path)
    requires Replay(output, []) == Some(open) && item.name != OPEN && item.name != CLOSE
    ensures open <= item.parents ==> Replay(output + [item], []) == Some(open)
    ensures !(open <= item.parents) ==> Broken(output + [item])
  {
    var all := output + [item];
    ReplayConcat(output, [item], []);
    assert [item][1..] == [];
    assert all[..|output| + 1] == all && all[|output|] == item;
  }

  /** An entry in `default` while levels of a nested section are open. */
  lemma EntryDooms(st: State, e: Event)
    requires (Sound(st, true) || Stuck(st)) && IsProper(e) && IsStored(e, st.section)
    ensures Doomed(Advance(st, e))
  {
    var output := Advance(st, e).output;
    var before := DropLast(output);
    var open := Replay(st.output, []).value;
    if before == st.output {
      AddedBreaksOrFits(st.output, Last(output), open);
    } else {
      assert before == DropLast(st.output) && st.output == before + [Last(st.output)];
      ReplayIgnoresInputs(before, Last(st.output), Last(output));
    }
    assert output == before + [Last(output)];
  }

  /** A section that starts there finds the wrong path open. */
  lemma HeaderBreaks(st: State, path: Path)
    requires Stuck(st) && path != []
    ensures Broken(Advance(st, Header(path)).output)
  {
    var open := Replay(st.output, []).value;
    var first := Opening(path[..1]);
    var output := st.output + Openings(path, 0);
    assert Openings(path, 0)[0] == first;
    assert DropLast(path[..1]) == [];
    ReplayConcat(st.output, [first], []);
    assert output[..|st.output| + 1] == st.output + [first] && output[|st.output|] == first;
  }

  lemma BrokenEntryStays(output: seq<ConfigItem>, parents: Path, name: string, inputs: seq<string>)
    requires Broken(output) && name != CLOSE
    ensures Broken(AddItem(output, parents, name, inputs))
  {
    hide Replay;
    var i :| 0 <= i < |output| && output[i].name != CLOSE && Replay(output[..i + 1], []) == None;
    var r := AddItem(output, parents, name, inputs);
    if i == |output| - 1 && |r| == |output| {
      ReplayIgnoresInputs(DropLast(output), Last(output), Last(r));
      assert output[..i + 1] == DropLast(output) + [Last(output)];
      assert r[..i + 1] == DropLast(output) + [Last(r)];
    } else {
      assert r[..i + 1] == output[..i + 1] && r[i] == output[i];
    }
  }

  lemma BrokenPrefixStays(output: seq<ConfigItem>, r: seq<ConfigItem>)
    requires output != [] && Broken(output)
    requires DropLast(output) <= r && (output <= r || Last(output).name == CLOSE)
    ensures Broken(r)
  {
    hide Replay;
    var i :| 0 <= i < |output| && output[i].name != CLOSE && Replay(output[..i + 1], []) == None;
    assert r[..i + 1] == output[..i + 1] && r[i] == output[i];
  }

  /** Once an item is out of place no later line mends it. */
  lemma BrokenStays(st: State, e: Event)
    requires Broken(st.output) && IsProper(e)
    ensures Broken(Advance(st, e).output)
  {
    hide Broken, Closings, Openings, AddItem, Common;
    match e {
      case Entry(more, name, inputs) => BrokenEntryStays(st.output, st.section + more, name, inputs);
      case DefaultHeader => BrokenMore(st.output, LeaveSection(st));
      case Header(path) =>
        var output := LeaveSection(st);
        BrokenMore(st.output, output);
        BrokenNotEmpty(output);
        BrokenPrefixStays(output, WithSection(output, path));
    }
  }

  lemma BrokenNotEmpty(output: seq<ConfigItem>)
    requires Broken(output)
    ensures output != []
  {
  }

  lemma BrokenMore(output: seq<ConfigItem>, more: seq<ConfigItem>)
    requires Broken(output) && output <= more
    ensures Broken(more)
  {
    BrokenNotEmpty(output);
    BrokenPrefixStays(output, more);
  }

  lemma DoomStays(st: State, e: Event)
    requires Doomed(st) && IsProper(e)
    ensures Doomed(Advance(st, e))
  {
    if Broken(st.output) {
      BrokenStays(st, e);
    } else if e.Header? {
      HeaderBreaks(st, e.path);
    } else if IsStored(e, st.section) {
      EntryDooms(st, e);
    }
  }

  lemma ReplayIgnoresInputs(items: seq<ConfigItem>, a: ConfigItem, b: ConfigItem)
    requires a.parents == b.parents && a.name == b.name
    ensures Replay(items + [a], []) == Replay(items + [b], [])
  {
    ReplayConcat(items, [a], []);
    ReplayConcat(items, [b], []);
    assert [a][1..] == [] && [b][1..] == [];
  }

  lemma {:induction false} RunDoomed(st: State, events: seq<Event>)
    requires Doomed(st) && AllProper(events)
    ensures Replay(Finished(Run(st, events)), []) != Some([])
    decreases |events|
  {
    if events != [] {
      DoomStays(st, events[0]);
      RunDoomed(Advance(st, events[0]), events[1..]);
    } else if Broken(st.output) {
      var i :| 0 <= i < |st.output| && st.output[i].name != CLOSE && Replay(st.output[..i + 1], []) == None;
      var items := Finished(st);
      assert items[..i + 1] == st.output[..i + 1];
      assert items == items[..i + 1] + items[i + 1..];
      ReplayConcat(items[..i + 1], items[i + 1..], []);
    }
  }

  lemma {:induction false} RunNests(st: State, events: seq<Event>, pending: bool)
    requires Sound(st, pending) && AllProper(events)
    ensures Replay(Finished(Run(st, events)), []) == Some([]) <==> Tidy(events, st.section, pending)
    decreases |events|
  {
    if events == [] {
      if st.section != [] {
        ReplayClosings(st.section, 0);
        ReplayConcat(st.output, Closings(Closing(st.section), 0), []);
      }
    } else if IsStored(events[0], st.section) && pending {
      EntryDooms(st, events[0]);
      RunDoomed(Advance(st, events[0]), events[1..]);
    } else {
      StepSound(st, events[0], pending);
      AdvanceSection(st, events[0]);
      RunNests(Advance(st, events[0]), events[1..], Pending(st.section, pending, events[0]));
    }
  }

  /** Section markers nest, for every file: replayed in order, each opening item
      extends the open path by one component, each closing item names exactly the
      open path, each entry belongs to the open path or below it, and nothing is
      open at the end, if and only if every return to `[default]` from a nested
      section is tidy. */
  lemma MarkersNest(events: seq<Event>)
    requires AllProper(events)
    ensures Replay(Emitted(events), []) == Some([]) <==> Tidy(events, [], false)
  {
    assert Sound(State([], []), false) by {
      assert Replay([], []) == Some([]);
    }
    RunNests(State([], []), events, false);
  }

  lemma {:induction false} SoundAt(st: State, events: seq<Event>, pending: bool, k: nat) returns (p: bool)
    requires Sound(st, pending) && AllProper(events) && Tidy(events, st.section, pending) && k <= |events|
    ensures Sound(Run(st, events[..k]), p) && Tidy(events[k..], Run(st, events[..k]).section, p)
    decreases |events|
  {
    if k == 0 {
      p := pending;
      assert events[0..] == events;
    } else {
      var e := events[0];
      StepSound(st, e, pending);
      AdvanceSection(st, e);
      p := SoundAt(Advance(st, e), events[1..], Pending(st.section, pending, e), k - 1);
      assert events[..k][1..] == events[1..][..k - 1] && events[1..][k - 1..] == events[k..];
    }
  }

  /** In a tidy file the open path is exactly the current section at every line of
      a section, and exactly an entry's own section wherever one is stored. */
  lemma StackIsSection(events: seq<Event>, k: nat)
    requires AllProper(events) && Tidy(events, [], false) && k <= |events|
    ensures var st := Run(State([], []), events[..k]);
            st.section != [] || (k < |events| && IsStored(events[k], [])) ==>
              Replay(st.output, []) == Some(st.section)
  {
    assert Sound(State([], []), false) by {
      assert Replay([], []) == Some([]);
    }
    var p := SoundAt(State([], []), events, false, k);
    if k < |events| {
      assert events[k..][0] == events[k];
    }
  }

  /** A file that leaves `[a.b]` for `[default]` and ends keeps `a` open. */
  lemma DefaultLeavesParentOpen(a: string, b: string)
    ensures var events := [Header([a, b]), DefaultHeader];
            AllProper(events) && Replay(Emitted(events), []) != Some([])
  {
    var events := [Header([a, b]), DefaultHeader];
    assert events[1..] == [DefaultHeader];
    assert events[1..][1..] == [];
    assert !Tidy(events, [], false) by {
      assert Pending([a, b], false, DefaultHeader);
      assert !Tidy([], [], true);
      assert !Tidy([DefaultHeader], [a, b], false);
    }
    MarkersNest(events);
  }

  // ---------------------------------------------------------------- conservation of values

  /** One value of one entry, under its section and the parents its key names. */
  datatype Placed = Placed(path: Path, name: string, value: string)

  function PlacedAll(path: Path, name: string, inputs: seq<string>): seq<Placed> {
    seq(|inputs|, i requires 0 <= i < |inputs| => Placed(path, name, inputs[i]))
  }

  /** The values in the items, in order. */
  function Values(items: seq<ConfigItem>): seq<Placed> {
    if items == [] then []
    else
      (if items[0].name == OPEN || items[0].name == CLOSE then []
       else PlacedAll(items[0].parents, items[0].name, items[0].inputs)) + Values(items[1..])
  }

  function WrittenBy(e: Event, section: Path): seq<Placed> {
    if IsStored(e, section) then PlacedAll(section + e.more, e.name, e.inputs) else []
  }

  /** The values in the file, in order. */
  function Written(events: seq<Event>, section: Path): seq<Placed> {
    if events == [] then []
    else WrittenBy(events[0], section) + Written(events[1..], SectionAfter(section, events[0]))
  }

  lemma {:induction false} ValuesConcat(a: seq<ConfigItem>, b: seq<ConfigItem>)
    ensures Values(a + b) == Values(a) + Values(b)
  {
    if a == [] {
      assert a + b == b;
    } else {
      assert (a + b)[1..] == a[1..] + b;
      ValuesConcat(a[1..], b);
    }
  }

  lemma {:induction false} MarkersHoldNoValues(items: seq<ConfigItem>)
    requires forall i | 0 <= i < |items| :: items[i].name == OPEN || items[i].name == CLOSE
    ensures Values(items) == []
  {
    if items != [] {
      MarkersHoldNoValues(items[1..]);
    }
  }

  lemma {:induction false} ClosingsAreMarkers(item: ConfigItem, lo: nat)
    requires item.name == CLOSE
    ensures forall i | 0 <= i < |Closings(item, lo)| :: Closings(item, lo)[i].name == CLOSE
    decreases |item.parents|
  {
    if |item.parents| > lo {
      ClosingsAreMarkers(item.(parents := DropLast(item.parents)), lo);
    }
  }

  lemma {:induction false} OpeningsAreMarkers(path: Path, lo: nat)
    ensures forall i | 0 <= i < |Openings(path, lo)| :: Openings(path, lo)[i].name == OPEN
    decreases |path| - lo
  {
    if lo < |path| {
      OpeningsAreMarkers(path, lo + 1);
    }
  }

  lemma ClosingsHoldNoValues(output: seq<ConfigItem>, item: ConfigItem, lo: nat)
    requires item.name == CLOSE
    ensures Values(output + Closings(item, lo)) == Values(output)
  {
    ClosingsAreMarkers(item, lo);
    MarkersHoldNoValues(Closings(item, lo));
    ValuesConcat(output, Closings(item, lo));
  }

  lemma OpeningsHoldNoValues(output: seq<ConfigItem>, path: Path, lo: nat)
    ensures Values(output + Openings(path, lo)) == Values(output)
  {
    OpeningsAreMarkers(path, lo);
    MarkersHoldNoValues(Openings(path, lo));
    ValuesConcat(output, Openings(path, lo));
  }

  lemma SectionKeepsValues(output: seq<ConfigItem>, path: Path)
    requires path != []
    ensures Values(WithSection(output, path)) == Values(output)
  {
    if output != [] && Last(output).name == CLOSE {
      var back := Last(output);
      if |path| > 1 {
        var keep := Common(back.parents, DropLast(path));
        OpeningsHoldNoValues(DropLast(output) + Closings(back, keep), path, keep);
        ClosingsHoldNoValues(DropLast(output), back, keep);
        MarkersHoldNoValues([back]);
        ValuesConcat(DropLast(output), [back]);
        assert output == DropLast(output) + [back];
      } else {
        OpeningsHoldNoValues(output + ClosingsAfter(back), path, 0);
        if back.parents != [] {
          ClosingsHoldNoValues(output, back.(parents := DropLast(back.parents)), 0);
        } else {
          assert output + ClosingsAfter(back) == output;
        }
      }
    } else {
      OpeningsHoldNoValues(output, path, 0);
    }
  }

  lemma LeaveKeepsValues(st: State)
    ensures Values(LeaveSection(st)) == Values(st.output)
  {
    if st.section != [] {
      MarkersHoldNoValues([Closing(st.section)]);
      ValuesConcat(st.output, [Closing(st.section)]);
    }
  }

  lemma AddItemAddsValues(output: seq<ConfigItem>, path: Path, name: string, inputs: seq<string>)
    requires name != OPEN && name != CLOSE
    ensures Values(AddItem(output, path, name, inputs)) == Values(output) + PlacedAll(path, name, inputs)
  {
    var item := ConfigItem(path, name, inputs);
    assert Values([item]) == PlacedAll(path, name, inputs) + Values([item][1..]);
    if output != [] && name == Last(output).name && path == Last(output).parents {
      var back := Last(output);
      var more := back.(inputs := back.inputs + inputs);
      assert output == DropLast(output) + [back];
      ValuesConcat(DropLast(output), [back]);
      ValuesConcat(DropLast(output), [more]);
      assert Values([back]) == PlacedAll(path, name, back.inputs) + Values([back][1..]);
      assert Values([more]) == PlacedAll(path, name, more.inputs) + Values([more][1..]);
      assert PlacedAll(path, name, back.inputs + inputs)
          == PlacedAll(path, name, back.inputs) + PlacedAll(path, name, inputs);
    } else {
      ValuesConcat(output, [item]);
    }
  }

  lemma AdvanceKeepsValues(st: State, e: Event)
    requires IsProper(e)
    ensures Values(Advance(st, e).output) == Values(st.output) + WrittenBy(e, st.section)
  {
    LeaveKeepsValues(st);
    match e {
      case Header(path) => SectionKeepsValues(LeaveSection(st), path);
      case DefaultHeader =>
      case Entry(more, name, inputs) => AddItemAddsValues(st.output, st.section + more, name, inputs);
    }
  }

  /** The values read so far and those still to come. */
  function Total(st: State, events: seq<Event>): seq<Placed> {
    Values(st.output) + Written(events, st.section)
  }

  lemma AdvanceSection(st: State, e: Event)
    requires IsProper(e)
    ensures Advance(st, e).section == SectionAfter(st.section, e)
  {
  }

  lemma TotalStep(st: State, events: seq<Event>)
    requires events != [] && IsProper(events[0])
    ensures Total(Advance(st, events[0]), events[1..]) == Total(st, events)
  {
    hide Advance, WrittenBy, SectionAfter, Values;
    var e, rest := events[0], events[1..];
    var next := Advance(st, e);
    AdvanceSection(st, e);
    AdvanceKeepsValues(st, e);
    var v, w, x := Values(st.output), WrittenBy(e, st.section), Written(rest, next.section);
    assert Written(events, st.section) == w + x;
    assert (v + w) + x == v + (w + x);
  }

  lemma FinishedKeepsValues(st: State)
    ensures Values(Finished(st)) == Total(st, [])
  {
    ClosingsHoldNoValues(st.output, Closing(st.section), 0);
    assert Values(st.output) + [] == Values(st.output);
  }

  lemma {:induction false} RunKeepsValues(st: State, events: seq<Event>)
    requires AllProper(events)
    ensures Values(Finished(Run(st, events))) == Total(st, events)
    decreases |events|
  {
    if events == [] {
      FinishedKeepsValues(st);
    } else {
      TotalStep(st, events);
      RunKeepsValues(Advance(st, events[0]), events[1..]);
    }
  }

  /** No value is lost, repeated, reordered or moved to another section, in any
      file, whether or not its markers nest. */
  lemma ValuesConserved(events: seq<Event>)
    requires AllProper(events)
    ensures Values(Emitted(events)) == Written(events, [])
  {
    RunKeepsValues(State([], []), events);
    assert [] + Written(events, []) == Written(events, []);
  }
}
