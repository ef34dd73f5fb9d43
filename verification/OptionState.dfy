/** The results of an Option in external/CLI/CLI11.hpp: collecting, validating and
    reducing them, and the four-state machine that caches the reduction. */
module OptionState {
  import opened Text
  import opened Arithmetic
  import opened ArgParser

  datatype Policy = Throw | TakeLast | TakeFirst | Join | TakeAll | Sum | Reverse

  datatype Phase = Parsing | Validated | Reduced | CallbackRun

  /** A validator may rewrite the text; it applies at one index, or at all for -1. */
  datatype Validator = Validator(at: int, run: string -> (string, bool))

  /** What does not change while parsing.  `total` is the text of a sum. */
  datatype Setup = Setup(
    validators: seq<Validator>, typeMin: nat, typeMax: nat, expectedMin: nat,
    allowExtra: bool, delimiter: char, forced: bool, defaultStr: string, total: seq<string> -> string)

  /** What does. */
  datatype Option = Option(results: seq<string>, proc: seq<string>, phase: Phase, policy: Policy, expectedMax: nat)

  function ItemsMaxOf(s: Setup, expectedMax: nat): nat {
    Checked(s.typeMax, expectedMax)
  }

  function ItemsMinOf(s: Setup): nat {
    s.typeMin * s.expectedMin
  }

  // ---------------------------------------------------------------- validation

  predicate IsSeparator(text: string) {
    text == [] || text == "%%"
  }

  /** The validators that apply at an index, in turn, up to the first that fails. */
  function RunValidators(vs: seq<Validator>, text: string, index: int): (string, bool) {
    if vs == [] then (text, true)
    else if vs[0].at == -1 || vs[0].at == index then
      var (next, ok) := vs[0].run(text);
      if ok then RunValidators(vs[1..], next, index) else (next, false)
    else RunValidators(vs[1..], text, index)
  }

  /** _validate. */
  function ValidateOne(s: Setup, text: string, index: int): (string, bool) {
    if text == [] && s.expectedMin == 0 then (text, true) else RunValidators(s.validators, text, index)
  }

  /** The index passed to the validators: within the type, for types of several values. */
  function WithinType(s: Setup, index: int): int {
    if s.typeMax > 1 && index >= 0 then index % s.typeMax else index
  }

  /** The loop of _validate_results from an index on.  A failure stops it; the
      elements before it stay rewritten. */
  function ValidateFrom(s: Setup, res: seq<string>, index: int): (r: (seq<string>, bool))
    ensures |r.0| == |res|
    decreases |res|
  {
    if res == [] then ([], true)
    else if s.typeMax > 1 && IsSeparator(res[0]) && s.typeMax != s.typeMin && index >= 0 then
      var (rest, ok) := ValidateFrom(s, res[1..], 0);
      ([res[0]] + rest, ok)
    else
      var (text, ok) := ValidateOne(s, res[0], WithinType(s, index));
      if !ok then ([text] + res[1..], false)
      else
        var (rest, ok') := ValidateFrom(s, res[1..], index + 1);
        ([text] + rest, ok')
  }

  /** The number of results that a trimming policy counts as expected. */
  function Expected(s: Setup, expectedMax: nat): nat {
    if s.typeMax > 1 then ItemsMaxOf(s, expectedMax) else expectedMax
  }

  /** The index of the first of `n` results: negative for those to be dropped. */
  function StartIndex(s: Setup, policy: Policy, expectedMax: nat, n: nat): int {
    if Expected(s, expectedMax) < n && (policy == TakeLast || policy == Reverse) then Expected(s, expectedMax) - n
    else 0
  }

  /** _validate_results. */
  function ValidateAll(s: Setup, policy: Policy, expectedMax: nat, res: seq<string>): (r: (seq<string>, bool))
    ensures |r.0| == |res|
  {
    if s.validators == [] then (res, true) else ValidateFrom(s, res, StartIndex(s, policy, expectedMax, |res|))
  }

  // ---------------------------------------------------------------- reduction

  function JoinWith(res: seq<string>, delimiter: string): string {
    if res == [] then [] else if |res| == 1 then res[0] else res[0] + delimiter + JoinWith(res[1..], delimiter)
  }

  /** How many results a trimming policy keeps. */
  function TrimSize(s: Setup, expectedMax: nat, n: nat): (k: nat)
    ensures k <= n && (n > 0 ==> k >= 1)
  {
    var most := if ItemsMaxOf(s, expectedMax) > 1 then ItemsMaxOf(s, expectedMax) else 1;
    if most < n then most else n
  }

  /** The switch of _reduce_results: a replacement for the results, empty for none.
      Joining looks at the number of results stored, not of those given. */
  function Switched(s: Setup, policy: Policy, expectedMax: nat, original: seq<string>, stored: nat): Result<seq<string>> {
    var n := |original|;
    var k := TrimSize(s, expectedMax, n);
    match policy
    case TakeAll => Ok([])
    case TakeLast => Ok(if n != k then original[n - k..] else [])
    case Reverse => Ok(if n != k || k > 1 then Reversed(original[n - k..]) else [])
    case TakeFirst => Ok(if n != k then original[..k] else [])
    case Join => Ok(if stored > 1 then [JoinWith(original, if s.delimiter == 0 as char then "\n" else [s.delimiter])] else [])
    case Sum => Ok([s.total(original)])
    case Throw =>
      var least := if ItemsMinOf(s) == 0 then 1 else ItemsMinOf(s);
      var most := if ItemsMaxOf(s, expectedMax) == 0 then 1 else ItemsMaxOf(s, expectedMax);
      if n < least then Thrown
      else if n > most then
        if n == 2 && most == 1 && original[1] == "%%" && original[0] == "{}" then Ok(original) else Thrown
      else Ok([])
  }

  /** The marker for an empty container is followed by a separator. */
  function Marked(s: Setup, original: seq<string>, out: seq<string>): seq<string> {
    if out == [] then
      if original == ["{}"] && ItemsMinOf(s) > 0 then ["{}", "%%"] else out
    else if out == ["{}"] && ItemsMinOf(s) > 0 then ["{}", "%%"]
    else out
  }

  /** _reduce_results. */
  function Reduce(s: Setup, policy: Policy, expectedMax: nat, original: seq<string>, stored: nat): Result<seq<string>> {
    match Switched(s, policy, expectedMax, original, stored)
    case Thrown => Thrown
    case Ok(out) => Ok(Marked(s, original, out))
  }

  // ---------------------------------------------------------------- the state machine

  /** detail::split: the pieces between delimiters; an empty last piece is dropped. */
  function SplitOn(text: string, c: char): (r: seq<string>)
    ensures forall i | 0 <= i < |r| :: |r[i]| <= |text|
    decreases |text|
  {
    var at := Find(text, c, 0);
    if at == |text| then [text]
    else if at + 1 == |text| then [text[..at]]
    else [text[..at]] + SplitOn(text[at + 1..], c)
  }

  function NonEmpty(pieces: seq<string>): (r: seq<string>)
    ensures forall i | 0 <= i < |r| :: r[i] in pieces
  {
    if pieces == [] then [] else (if pieces[0] == [] then [] else [pieces[0]]) + NonEmpty(pieces[1..])
  }

  /** _add_result: a bracketed list is split at commas, anything else at the delimiter. */
  function Added(s: Setup, text: string): seq<string>
    decreases |text|, 1
  {
    if s.allowExtra && text != [] && text[0] == '[' && text[|text| - 1] == ']' then
      var inner := if |text| > 1 then text[1..|text| - 1] else [];
      AddedAll(s, NonEmpty(SplitOn(inner, ',')), |text|)
    else if s.delimiter == 0 as char || s.delimiter !in text then [text]
    else NonEmpty(SplitOn(text, s.delimiter))
  }

  function AddedAll(s: Setup, pieces: seq<string>, bound: nat): seq<string>
    requires forall i | 0 <= i < |pieces| :: |pieces[i]| < bound
    decreases bound, 0, |pieces|
  {
    if pieces == [] then [] else Added(s, pieces[0]) + AddedAll(s, pieces[1..], bound)
  }

  function AddResults(s: Setup, o: Option, texts: seq<string>): Option
    decreases |texts|
  {
    if texts == [] then o.(phase := Parsing)
    else AddResults(s, o.(results := o.results + Added(s, texts[0])), texts[1..])
  }

  function Clear(o: Option): Option {
    o.(results := [], phase := Parsing)
  }

  /** multi_option_policy. */
  function SetPolicy(s: Setup, o: Option, policy: Policy): Option {
    if policy == o.policy then o
    else
      o.(expectedMax := if o.policy == Throw && o.expectedMax == MAX_VECTOR && s.expectedMin > 1 then s.expectedMin
                        else o.expectedMax,
         policy := policy, phase := Parsing)
  }

  function Sent(o: Option): seq<string> {
    if o.proc == [] then o.results else o.proc
  }

  /** run_callback after the results are validated. */
  function ReduceStep(s: Setup, o: Option): (Option, Result<seq<string>>) {
    if o.phase == Reduced || o.phase == CallbackRun then (o.(phase := CallbackRun), Ok(Sent(o)))
    else
      match Reduce(s, o.policy, o.expectedMax, o.results, |o.results|)
      case Thrown => (o.(proc := []), Thrown)
      case Ok(out) => (o.(proc := out, phase := CallbackRun), Ok(Sent(o.(proc := out))))
  }

  /** run_callback once there are results, or none are forced. */
  function ValidateStep(s: Setup, o: Option): (Option, Result<seq<string>>) {
    if o.phase != Parsing then ReduceStep(s, o)
    else
      var (res, ok) := ValidateAll(s, o.policy, o.expectedMax, o.results);
      if ok then ReduceStep(s, o.(results := res, phase := Validated)) else (o.(results := res), Thrown)
  }

  /** run_callback: the new state and the list the callback gets, or Thrown. */
  function RunCallback(s: Setup, o: Option): (Option, Result<seq<string>>) {
    ValidateStep(s, if s.forced && o.results == [] then AddResults(s, o, [s.defaultStr]) else o)
  }

  /** reduced_results. */
  function ReducedResults(s: Setup, o: Option): Result<seq<string>> {
    if o.phase == Reduced || o.phase == CallbackRun then Ok(Sent(o))
    else
      var (res, ok) := if o.phase == Parsing then ValidateAll(s, o.policy, o.expectedMax, o.results) else (Sent(o), true);
      if !ok then Thrown
      else if res == [] then Ok(res)
      else
        match Reduce(s, o.policy, o.expectedMax, res, |o.results|)
        case Thrown => Thrown
        case Ok(extra) => Ok(if extra == [] then res else extra)
  }

  // ---------------------------------------------------------------- every run

  datatype Op = Add(texts: seq<string>) | DoClear | Callback | Change(policy: Policy)

  function Do(s: Setup, o: Option, op: Op): Option {
    match op
    case Add(texts) => AddResults(s, o, texts)
    case DoClear => Clear(o)
    case Callback => RunCallback(s, o).0
    case Change(policy) => SetPolicy(s, o, policy)
  }

  function DoAll(s: Setup, o: Option, ops: seq<Op>): Option
    decreases |ops|
  {
    if ops == [] then o else DoAll(s, Do(s, o, ops[0]), ops[1..])
  }

  /** run_callback would fill in the default value. */
  predicate IsDefaulted(s: Setup, o: Option) {
    s.forced && o.results == [] && Added(s, s.defaultStr) != []
  }

  /** The cached reduction is that of the stored results once it counts, and is
      empty where a reduction has just failed; a default has been filled in by then. */
  predicate CacheMatches(s: Setup, o: Option) {
    match o.phase
    case Parsing => true
    case Validated => o.proc == [] && o.policy == Throw && !IsDefaulted(s, o)
    case _ => Reduce(s, o.policy, o.expectedMax, o.results, |o.results|) == Ok(o.proc) && !IsDefaulted(s, o)
  }

  lemma {:induction false} AddResultsParses(s: Setup, o: Option, texts: seq<string>)
    ensures AddResults(s, o, texts).phase == Parsing
    decreases |texts|
  {
    if texts != [] {
      AddResultsParses(s, o.(results := o.results + Added(s, texts[0])), texts[1..]);
    }
  }

  lemma CallbackKeepsCache(s: Setup, o: Option)
    requires CacheMatches(s, o)
    ensures CacheMatches(s, RunCallback(s, o).0)
  {
    hide ValidateAll, Added;
    if o.results == [] {
      AddDefault(s, o);
    }
  }

  lemma AddDefault(s: Setup, o: Option)
    requires o.results == []
    ensures AddResults(s, o, [s.defaultStr]) == o.(results := Added(s, s.defaultStr), phase := Parsing)
  {
    hide Added;
    assert [s.defaultStr][1..] == [];
    assert [] + Added(s, s.defaultStr) == Added(s, s.defaultStr);
  }

  lemma {:induction false} RunKeepsCache(s: Setup, o: Option, ops: seq<Op>)
    requires CacheMatches(s, o)
    ensures CacheMatches(s, DoAll(s, o, ops))
    decreases |ops|
  {
    if ops != [] {
      hide Reduce, RunCallback;
      match ops[0] {
        case Add(texts) => AddResultsParses(s, o, texts);
        case Callback => CallbackKeepsCache(s, o);
        case _ =>
      }
      RunKeepsCache(s, Do(s, o, ops[0]), ops[1..]);
    }
  }

  /** Whether the two views agree: the const view fills in no default value, and
      does not reduce an empty list. */
  predicate ViewsAgree(s: Setup, o: Option) {
    !IsDefaulted(s, o) &&
    (o.results != [] || o.phase == CallbackRun || o.phase == Reduced || (o.policy != Sum && o.policy != Throw))
  }

  /** What the policies make of an empty list. */
  lemma ReduceEmpty(s: Setup, policy: Policy, expectedMax: nat)
    ensures var r := Reduce(s, policy, expectedMax, [], 0);
            if policy == Throw then r.Thrown? else r.Ok? && (r.value == [] <==> policy != Sum)
  {
  }

  lemma ViewsOfSome(s: Setup, o: Option)
    requires CacheMatches(s, o) && o.results != []
    ensures ReducedResults(s, o) == RunCallback(s, o).1
  {
    hide Reduce, ValidateAll;
  }

  lemma ViewsOfNone(s: Setup, o: Option)
    requires CacheMatches(s, o) && o.results == [] && !IsDefaulted(s, o)
    ensures ReducedResults(s, o) == RunCallback(s, o).1 <==> ViewsAgree(s, o)
  {
    hide Reduce, Added;
    AddDefault(s, o);
    ReduceEmpty(s, o.policy, o.expectedMax);
    assert ValidateAll(s, o.policy, o.expectedMax, []) == ([], true);
  }

  lemma ViewsOfDefault(s: Setup, o: Option)
    requires CacheMatches(s, o) && IsDefaulted(s, o)
    ensures ReducedResults(s, o) == Ok([]) && RunCallback(s, o).1 != Ok([])
  {
    hide Reduce, Added;
    AddDefault(s, o);
    assert ValidateAll(s, o.policy, o.expectedMax, []) == ([], true);
  }

  lemma ViewsAgreeExactly(s: Setup, o: Option)
    requires CacheMatches(s, o)
    ensures ReducedResults(s, o) == RunCallback(s, o).1 <==> ViewsAgree(s, o)
  {
    hide ReducedResults, RunCallback, CacheMatches;
    if o.results != [] {
      ViewsOfSome(s, o);
    } else if IsDefaulted(s, o) {
      ViewsOfDefault(s, o);
    } else {
      ViewsOfNone(s, o);
    }
  }

  /** The const view agrees with the mutating path in every state that any run
      of add_result, clear, run_callback and multi_option_policy can reach:
      reduced_results gives, or fails as, exactly what run_callback would next send,
      if and only if it would fill in no default, and there are results, or the
      callback has run, or the policy does not reduce an empty list. */
  lemma ConstViewAgrees(s: Setup, policy: Policy, expectedMax: nat, ops: seq<Op>)
    ensures var o := DoAll(s, Option([], [], Parsing, policy, expectedMax), ops);
            && CacheMatches(s, o)
            && (ReducedResults(s, o) == RunCallback(s, o).1 <==> ViewsAgree(s, o))
  {
    hide ReducedResults, RunCallback, ViewsAgree, CacheMatches;
    var start := Option([], [], Parsing, policy, expectedMax);
    assert CacheMatches(s, start) by { FreshCache(s, start); }
    RunKeepsCache(s, start, ops);
    ViewsAgreeExactly(s, DoAll(s, start, ops));
  }

  /** An option that has got nothing, under Throw: the const view gives the empty
      list, where the callback path throws. */
  lemma EmptyViewsDiffer()
    ensures var s := Setup([], 1, 1, 1, false, 0 as char, false, [], _ => []);
            var o := Option([], [], Parsing, Throw, 1);
            ReducedResults(s, o) == Ok([]) && RunCallback(s, o).1 == Thrown
  {
  }

  lemma FreshCache(s: Setup, o: Option)
    requires o.phase == Parsing
    ensures CacheMatches(s, o)
  {
  }

  // ---------------------------------------------------------------- indices

  /** The index at which result `j` of `n` is validated, for a type of fixed size. */
  function IndexAt(s: Setup, policy: Policy, expectedMax: nat, n: nat, j: nat): int {
    WithinType(s, StartIndex(s, policy, expectedMax, n) + j)
  }

  /** Validation of a list looks at each element at its own index. */
  lemma {:induction false} ValidatedAt(s: Setup, res: seq<string>, start: int, j: nat)
    requires s.typeMin == s.typeMax && j < |res| && ValidateFrom(s, res, start).1
    ensures ValidateFrom(s, res, start).0[j] == ValidateOne(s, res[j], WithinType(s, start + j)).0
    decreases |res|
  {
    hide ValidateOne, WithinType;
    if j > 0 {
      ValidatedAt(s, res[1..], start + 1, j - 1);
      assert res[1..][j - 1] == res[j];
    }
  }

  /** Under TakeLast with `n` results: the element kept at position `i` is the
      one validated at that position, within its type, and each dropped element gets
      a negative index. */
  predicate LinesUp(s: Setup, expectedMax: nat, n: nat) {
    var k := TrimSize(s, expectedMax, n);
    && (forall i | 0 <= i < k :: IndexAt(s, TakeLast, expectedMax, n, n - k + i) == WithinType(s, i))
    && (forall j | 0 <= j < n - k :: IndexAt(s, TakeLast, expectedMax, n, j) < 0)
  }

  /** The settings under which validation and trimming count alike. */
  predicate CountsAlike(s: Setup, expectedMax: nat) {
    (s.typeMax >= 1 && expectedMax >= 1) || (s.typeMax == 0 && expectedMax == 1)
  }

  lemma CheckedPositive(a: nat, b: nat)
    ensures Checked(a, b) == 0 <==> a == 0 || b == 0
    ensures Fits(INT, b) ==> Checked(1, b) == b
  {
    if a > 0 && b > 0 {
      assert a * b > 0;
    }
  }

  lemma AlikeLinesUp(s: Setup, expectedMax: nat, n: nat)
    requires CountsAlike(s, expectedMax) && Fits(INT, expectedMax)
    ensures LinesUp(s, expectedMax, n)
  {
    hide Checked;
    CheckedPositive(s.typeMax, expectedMax);
    CheckedPositive(1, expectedMax);
  }

  lemma UnlikeFails(s: Setup, expectedMax: nat)
    requires !CountsAlike(s, expectedMax) && Fits(INT, expectedMax)
    ensures !LinesUp(s, expectedMax, 2)
  {
    hide Checked;
    CheckedPositive(s.typeMax, expectedMax);
    var k := TrimSize(s, expectedMax, 2);
    assert k == 1;
    if expectedMax == 0 {
      assert IndexAt(s, TakeLast, 0, 2, 1) == -1;
      assert 0 <= 0 < k && IndexAt(s, TakeLast, expectedMax, 2, 2 - k + 0) != WithinType(s, 0);
    } else {
      assert IndexAt(s, TakeLast, expectedMax, 2, 0) == 0;
    }
  }

  /** Validation indices line up with reduction for every number of results if
      and only if the type size and the expected maximum are at least one, or the
      type takes no value and the maximum is one. */
  lemma IndicesLineUp(s: Setup, expectedMax: nat)
    requires Fits(INT, expectedMax)
    ensures (forall n: nat :: LinesUp(s, expectedMax, n)) <==> CountsAlike(s, expectedMax)
  {
    hide LinesUp, CountsAlike;
    if CountsAlike(s, expectedMax) {
      forall n: nat
        ensures LinesUp(s, expectedMax, n)
      {
        AlikeLinesUp(s, expectedMax, n);
      }
    } else {
      UnlikeFails(s, expectedMax);
    }
  }

  /** So the element the callback gets at position `i` is the one its own validator has seen. */
  lemma KeptAsValidated(s: Setup, expectedMax: nat, res: seq<string>, i: nat)
    requires s.typeMin == s.typeMax && s.validators != [] && CountsAlike(s, expectedMax) && Fits(INT, expectedMax)
    requires ValidateAll(s, TakeLast, expectedMax, res).1 && i < TrimSize(s, expectedMax, |res|)
    ensures var k, sent := TrimSize(s, expectedMax, |res|),
                           RunCallback(s, Option(res, [], Parsing, TakeLast, expectedMax)).1;
            && sent.Ok? && i < |sent.value|
            && (sent.value[0] != "{}" ==> |sent.value| == k)
            && sent.value[i] == ValidateOne(s, res[|res| - k + i], WithinType(s, i)).0
  {
    hide ValidateFrom, ValidateOne, TrimSize, CountsAlike, WithinType, StartIndex;
    var k := TrimSize(s, expectedMax, |res|);
    AlikeLinesUp(s, expectedMax, |res|);
    ValidatedAt(s, res, StartIndex(s, TakeLast, expectedMax, |res|), |res| - k + i);
  }
}
