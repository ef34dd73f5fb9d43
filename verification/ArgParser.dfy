/** The argument loop of an app without subcommands in external/CLI/CLI11.hpp:
    how _parse_single, _parse_arg and _parse_positional take tokens off the command
    line.  Options have no delimiter, bracketed splitting, separator injection or
    trigger on parse.  Here the command line is in its own order; the source keeps it
    reversed, and ArgLoop follows it in that. */
module ArgParser {
  import opened Text
  import opened Arithmetic

  const INT: IntType := IntType(-0x8000_0000, 0x7FFF_FFFF)
  const MAX_VECTOR: nat := 0x2000_0000

  datatype Opt = Opt(
    snames: seq<string>, lnames: seq<string>, pname: string,
    fnames: seq<string>, flagValues: seq<string>, defaultStr: string,
    typeMin: nat, typeMax: nat, expectedMin: nat, expectedMax: nat,
    allowExtra: bool, flagLike: bool, required: bool, noOverride: bool, forced: bool)

  /** Settings of the app; `accepts` is the verdict of an option's validators on a
      text, and `negated` the reading of a value given to a negative flag. */
  datatype App = App(
    options: seq<Opt>, windowsStyle: bool, positionalsAtEnd: bool, prefixCommand: bool,
    validatePositionals: bool, validateOptional: bool,
    accepts: (nat, string) -> bool, negated: string -> string)

  predicate IsOpt(o: Opt) {
    |o.flagValues| == |o.fnames| && o.typeMin <= o.typeMax && o.expectedMin <= o.expectedMax
  }

  predicate IsApp(app: App) {
    forall i | 0 <= i < |app.options| :: IsOpt(app.options[i])
  }

  datatype Classifier = NONE | POSITIONAL_MARK | SHORT | LONG | WINDOWS_STYLE

  datatype Result<+T> = Ok(value: T) | Thrown

  // ---------------------------------------------------------------- tokens

  predicate ValidFirst(c: char) {
    c != '-' && c as int > 33
  }

  function SplitShort(token: string): Option<(string, string)> {
    if |token| > 1 && token[0] == '-' && ValidFirst(token[1]) then Some((token[1..2], token[2..])) else None
  }

  function SplitAt(token: string, skip: nat, c: char): (string, string)
    requires skip <= |token| && forall k | 0 <= k < skip :: token[k] != c
  {
    var at := Find(token, c, 0);
    if at < |token| then (token[skip..at], token[at + 1..]) else (token[skip..], [])
  }

  function SplitLong(token: string): Option<(string, string)> {
    if |token| > 2 && token[0] == '-' && token[1] == '-' && ValidFirst(token[2]) then Some(SplitAt(token, 2, '='))
    else None
  }

  function SplitWindows(token: string): Option<(string, string)> {
    if |token| > 1 && token[0] == '/' && ValidFirst(token[1]) then Some(SplitAt(token, 1, ':')) else None
  }

  function FindShort(options: seq<Opt>, name: string, i: nat): (r: nat)
    ensures r <= |options| && (r < |options| ==> i <= r && name in options[r].snames)
    ensures forall k | i <= k < r && k < |options| :: name !in options[k].snames
    decreases |options| - i
  {
    if i >= |options| then |options| else if name in options[i].snames then i else FindShort(options, name, i + 1)
  }

  function FindLong(options: seq<Opt>, name: string, i: nat): (r: nat)
    ensures r <= |options| && (r < |options| ==> i <= r && name in options[r].lnames)
    ensures forall k | i <= k < r && k < |options| :: name !in options[k].lnames
    decreases |options| - i
  {
    if i >= |options| then |options| else if name in options[i].lnames then i else FindLong(options, name, i + 1)
  }

  function FindEither(options: seq<Opt>, name: string): (r: nat)
    ensures r <= |options|
  {
    var s, l := FindShort(options, name, 0), FindLong(options, name, 0);
    if s < l then s else l
  }

  /** _recognize. */
  function Recognize(app: App, token: string): Classifier {
    if token == "--" then POSITIONAL_MARK
    else if SplitLong(token).Some? then LONG
    else if SplitShort(token).Some? then
      if IsDigit(token[1]) && FindShort(app.options, token[1..2], 0) == |app.options| then NONE else SHORT
    else if app.windowsStyle && SplitWindows(token).Some? then WINDOWS_STYLE
    else NONE
  }

  // ---------------------------------------------------------------- options

  function ItemsMin(o: Opt): nat {
    o.typeMin * o.expectedMin
  }

  /** A product that the source computes with checked_multiply. */
  function Checked(a: nat, b: nat): nat {
    if Fits(INT, a * b) then a * b else MAX_VECTOR
  }

  function ItemsMax(o: Opt): nat {
    Checked(o.typeMax, o.expectedMax)
  }

  /** The fewest and most values one occurrence takes. */
  function MinNum(o: Opt): nat {
    if o.typeMin < ItemsMin(o) then o.typeMin else ItemsMin(o)
  }

  function MaxNum(o: Opt): nat {
    if ItemsMax(o) >= MAX_VECTOR / 16 && !o.allowExtra then Checked(o.typeMax, o.expectedMin) else ItemsMax(o)
  }

  function IndexIn(names: seq<string>, name: string): (r: nat)
    ensures r <= |names| && (r < |names| ==> names[r] == name)
  {
    if names == [] || names[0] == name then 0 else 1 + IndexIn(names[1..], name)
  }

  /** get_flag_value. */
  function FlagValue(app: App, o: Opt, name: string, input: string): Result<string>
    requires IsOpt(o)
  {
    var at := IndexIn(o.fnames, name);
    var bare := input == [] || input == "{}";
    if o.noOverride && !bare && at < |o.fnames| && o.flagValues[at] != input then
      if input == o.defaultStr && o.forced then Ok(input) else Thrown
    else if o.noOverride && !bare && at == |o.fnames| && input != "true" then Thrown
    else if bare then
      Ok(if at < |o.fnames| then o.flagValues[at] else if o.flagLike then "true" else o.defaultStr)
    else if at < |o.fnames| && o.flagValues[at] == "false" then Ok(app.negated(input))
    else Ok(input)
  }

  // ---------------------------------------------------------------- state

  /** Results by option, what no option took, and the order options were used in. */
  datatype State = State(results: seq<seq<string>>, missing: seq<(Classifier, string)>, order: seq<nat>)

  predicate IsState(app: App, st: State) {
    |st.results| == |app.options|
  }

  /** _count_remaining_positionals(true), from option `i` on. */
  function RemainingRequired(app: App, results: seq<seq<string>>, i: nat): nat
    requires |results| == |app.options|
    decreases |app.options| - i
  {
    if i >= |app.options| then 0
    else
      var o := app.options[i];
      (if o.pname != [] && o.required && |results[i]| < ItemsMin(o) then ItemsMin(o) - |results[i]| else 0)
      + RemainingRequired(app, results, i + 1)
  }

  /** What one turn of the loop takes off the command line.

      An option takes its token, or the first letter of a bundle, whose other
      letters are put back; `attached` is the text its token carries for it, `flag`
      the values made up for it as a flag, and `padding` an empty value that fills up
      an incomplete one. */
  datatype Taken =
    | TookMissing(tokens: seq<(Classifier, string)>)
    | TookPositional(index: nat, text: string)
    | TookOption(index: nat, token: string, rest: string, attached: seq<string>, values: seq<string>,
                 flagFirst: seq<string>, flagLast: seq<string>, ateMark: bool, padding: seq<string>)

  /** The values an option gets, in the order it gets them. */
  function Gained(t: Taken): seq<string> {
    match t
    case TookMissing(_) => []
    case TookPositional(_, text) => [text]
    case TookOption(_, _, _, attached, values, flagFirst, flagLast, _, padding) =>
      flagFirst + attached + values + flagLast + padding
  }

  /** How often the option enters the parse order: once for each value but padding. */
  function Uses(t: Taken): nat {
    match t
    case TookMissing(_) => 0
    case TookPositional(_, _) => 1
    case TookOption(_, _, _, attached, values, flagFirst, flagLast, _, _) =>
      |flagFirst| + |attached| + |values| + |flagLast|
  }

  predicate InApp(app: App, t: Taken) {
    t.TookMissing? || t.index < |app.options|
  }

  function Apply(app: App, st: State, t: Taken): (r: State)
    requires IsState(app, st) && InApp(app, t)
    ensures IsState(app, r)
  {
    match t
    case TookMissing(tokens) => st.(missing := st.missing + tokens)
    case _ =>
      State(st.results[t.index := st.results[t.index] + Gained(t)], st.missing,
            st.order + seq(Uses(t), _ => t.index))
  }

  // ---------------------------------------------------------------- one turn

  /** How many more values an option takes after the required ones. */
  function TakeMore(app: App, line: seq<string>, i: nat, o: Opt, collected: nat, reserved: nat): (n: nat)
    ensures n <= |line|
    decreases |line|
  {
    if && (collected < MaxNum(o) || o.allowExtra)
       && line != [] && Recognize(app, line[0]) == NONE
       && reserved < |line|
       && (app.validateOptional ==> app.accepts(i, line[0]))
    then 1 + TakeMore(app, line[1..], i, o, collected + 1, reserved)
    else 0
  }

  function Least(a: nat, b: nat): nat {
    if a < b then a else b
  }

  /** The text a token carries for its option: after `=`, or the letters after a short name. */
  function Attached(o: Opt, value: string, rest: string): seq<string> {
    if MaxNum(o) == 0 then [] else if value != [] then [value] else if rest != [] then [rest] else []
  }

  /** Letters of a bundle that are put back for the next turn. */
  function PutBack(o: Opt, value: string, rest: string): string {
    if MaxNum(o) != 0 && value == [] then [] else rest
  }

  /** How many required values follow; -1 if there are too few. */
  function RequiredValues(o: Opt, attached: nat, available: nat): int {
    if MinNum(o) <= attached then 0 else if MinNum(o) - attached <= available then MinNum(o) - attached else -1
  }

  function FlagFirst(app: App, o: Opt, name: string, value: string): Result<seq<string>>
    requires IsOpt(o)
  {
    if MaxNum(o) != 0 then Ok([])
    else match FlagValue(app, o, name, value) case Thrown => Thrown case Ok(text) => Ok([text])
  }

  function FlagLast(app: App, o: Opt, name: string, collected: nat): (r: seq<string>)
    requires IsOpt(o)
  {
    if MinNum(o) == 0 && MaxNum(o) > 0 && collected == 0 then
      match FlagValue(app, o, name, []) case Thrown => [] case Ok(text) => [text]
    else []
  }

  /** Whether the option may take values beyond the required ones. */
  predicate TakesMore(o: Opt, collected: nat) {
    collected < MaxNum(o) || o.allowExtra
  }

  /** An empty value for a partly filled type of variable size; Thrown for a fixed size. */
  function Padding(o: Opt, collected: nat): Result<seq<string>>
    requires IsOpt(o)
  {
    if MinNum(o) > 0 && collected % o.typeMax != 0 then
      if o.typeMax != o.typeMin then Ok([[]]) else Thrown
    else Ok([])
  }

  /** The optional part of an occurrence: values, an end mark, a default flag value, padding. */
  function DecideRest(app: App, st: State, line: seq<string>, i: nat, name: string, rest: string,
                      attached: seq<string>, first: seq<string>, n: nat): Result<Taken>
    requires IsApp(app) && IsState(app, st) && i < |app.options| && 1 + n <= |line|
  {
    var o := app.options[i];
    var collected := |attached| + n;
    var more := TakesMore(o, collected);
    var results := st.results[i := st.results[i] + (first + attached + line[1..1 + n])];
    var k := if more then TakeMore(app, line[1 + n..], i, o, collected, RemainingRequired(app, results, 0)) else 0;
    var ateMark := more && 1 + n + k < |line| && line[1 + n + k] == "--";
    match Padding(o, collected + k)
    case Thrown => Thrown
    case Ok(padding) =>
      Ok(TookOption(i, line[0], rest, attached, line[1..1 + n + k], first,
                    if more then FlagLast(app, o, name, collected + k) else [], ateMark, padding))
  }

  /** An occurrence of option `i`: its name, the value after `=` and the letters after a short name. */
  function DecideOption(app: App, st: State, line: seq<string>, i: nat, name: string, value: string, rest: string): Result<Taken>
    requires IsApp(app) && IsState(app, st) && i < |app.options| && line != []
  {
    var o := app.options[i];
    match FlagFirst(app, o, name, value)
    case Thrown => Thrown
    case Ok(first) =>
      var attached := Attached(o, value, rest);
      var n := RequiredValues(o, |attached|, |line| - 1);
      if n < 0 then Thrown
      else DecideRest(app, st, line, i, name, PutBack(o, value, rest), attached, first, n)
  }

  /** _parse_arg. */
  function DecideArg(app: App, st: State, line: seq<string>, kind: Classifier): Result<Taken>
    requires IsApp(app) && IsState(app, st) && line != [] && kind == Recognize(app, line[0])
    requires kind == LONG || kind == SHORT || kind == WINDOWS_STYLE
  {
    var token := line[0];
    var (name, value, rest) :=
      if kind == LONG then (SplitLong(token).value.0, SplitLong(token).value.1, [])
      else if kind == SHORT then (SplitShort(token).value.0, [], SplitShort(token).value.1)
      else (SplitWindows(token).value.0, SplitWindows(token).value.1, []);
    var i := if kind == LONG then FindLong(app.options, name, 0)
             else if kind == SHORT then FindShort(app.options, name, 0) else FindEither(app.options, name);
    if i == |app.options| then Ok(TookMissing([(kind, token)]))
    else DecideOption(app, st, line, i, name, value, rest)
  }

  /** The positional that takes a token, from option `i` on; the number of options if none. */
  function FindPositional(app: App, st: State, text: string, requiredOnly: bool, i: nat): (r: nat)
    requires IsState(app, st)
    ensures r <= |app.options|
    decreases |app.options| - i
  {
    if i >= |app.options| then |app.options|
    else
      var o := app.options[i];
      if && o.pname != []
         && (if requiredOnly then o.required && |st.results[i]| < ItemsMin(o)
             else |st.results[i]| < ItemsMin(o) || o.allowExtra)
         && (app.validatePositionals ==> app.accepts(i, text))
      then i
      else FindPositional(app, st, text, requiredOnly, i + 1)
  }

  function Positional(app: App, st: State, line: seq<string>): (r: nat)
    requires IsState(app, st) && line != []
    ensures r <= |app.options|
  {
    var required :=
      if app.positionalsAtEnd && |line| <= RemainingRequired(app, st.results, 0) then
        FindPositional(app, st, line[0], true, 0)
      else |app.options|;
    if required < |app.options| then required else FindPositional(app, st, line[0], false, 0)
  }

  function AllMissing(line: seq<string>): (r: seq<(Classifier, string)>)
    ensures |r| == |line| && forall i | 0 <= i < |line| :: r[i] == (NONE, line[i])
  {
    seq(|line|, i requires 0 <= i < |line| => (NONE, line[i]))
  }

  /** _parse_positional. */
  function DecidePositional(app: App, st: State, line: seq<string>): Result<Taken>
    requires IsState(app, st) && line != []
  {
    var i := Positional(app, st, line);
    if i < |app.options| then Ok(TookPositional(i, line[0]))
    else if app.positionalsAtEnd then Thrown
    else Ok(TookMissing(AllMissing(if app.prefixCommand then line else line[..1])))
  }

  function KindOf(app: App, token: string, positionalOnly: bool): Classifier {
    if positionalOnly then NONE else Recognize(app, token)
  }

  /** _parse_single: what it takes, or Thrown. */
  function Decide(app: App, st: State, line: seq<string>, positionalOnly: bool): Result<Taken>
    requires IsApp(app) && IsState(app, st) && line != []
  {
    var kind := KindOf(app, line[0], positionalOnly);
    if kind == POSITIONAL_MARK then Ok(TookMissing([(POSITIONAL_MARK, "--")]))
    else if kind == NONE then DecidePositional(app, st, line)
    else DecideArg(app, st, line, kind)
  }

  function PositionalOnly(app: App, token: string, positionalOnly: bool): bool {
    var kind := KindOf(app, token, positionalOnly);
    positionalOnly || kind == POSITIONAL_MARK || (kind == NONE && app.positionalsAtEnd)
  }

  /** The tokens a turn uses up. */
  function Used(t: Taken): nat {
    match t
    case TookMissing(tokens) => |tokens|
    case TookPositional(_, _) => 1
    case TookOption(_, _, _, _, values, _, _, ateMark, _) => 1 + |values| + if ateMark then 1 else 0
  }

  /** Letters put back make a token of their own. */
  function Returned(t: Taken): seq<string> {
    if t.TookOption? && t.rest != [] then ["-" + t.rest] else []
  }

  function Remaining(line: seq<string>, t: Taken): seq<string>
    requires Used(t) <= |line|
  {
    Returned(t) + line[Used(t)..]
  }

  // ---------------------------------------------------------------- progress and account

  /** The measure of the loop: characters left, and one more for each token. */
  function Size(line: seq<string>): nat {
    if line == [] then 0 else |line[0]| + 1 + Size(line[1..])
  }

  lemma {:induction false} SizeSplit(line: seq<string>, k: nat)
    requires k <= |line|
    ensures Size(line) == Size(line[..k]) + Size(line[k..]) && Size(line[..k]) >= k
  {
    if k == 0 {
      assert line[0..] == line;
    } else {
      SizeSplit(line[1..], k - 1);
      assert line[..k][1..] == line[1..][..k - 1];
      assert line[1..][k - 1..] == line[k..];
    }
  }

  /** The tokens a turn accounts for, in order. */
  function Spelled(t: Taken): seq<string> {
    match t
    case TookMissing(tokens) => seq(|tokens|, i requires 0 <= i < |tokens| => tokens[i].1)
    case TookPositional(_, text) => [text]
    case TookOption(_, token, _, _, values, _, _, ateMark, _) =>
      [token] + values + if ateMark then ["--"] else []
  }

  /** The values a turn makes up are those of an occurrence with this name and
      value and as many values as it took: a flag text before them if the option takes
      none, a default flag text after them if it has got none, and an empty filler if the
      last one is incomplete. */
  predicate MadeUp(app: App, o: Opt, name: string, value: string, t: Taken)
    requires t.TookOption?
  {
    var collected := |t.attached| + |t.values|;
    && IsOpt(o) && FlagFirst(app, o, name, value) == Ok(t.flagFirst)
    && t.flagLast == FlagLast(app, o, name, collected) && Padding(o, collected) == Ok(t.padding)
  }

  /** What a turn says about its own token is true of it: the name it found the
      option by, the text it gave the option, the letters it put back, the values it
      made up. */
  predicate Genuine(app: App, t: Taken) {
    t.TookOption? ==>
      t.index < |app.options| &&
      var o := app.options[t.index];
      || (&& SplitLong(t.token).Some?
          && var (name, value) := SplitLong(t.token).value;
             && name in o.lnames && t.rest == [] && t.attached == Attached(o, value, [])
             && MadeUp(app, o, name, value, t))
      || (&& SplitShort(t.token).Some?
          && var (name, rest) := SplitShort(t.token).value;
             && name in o.snames && t.rest == PutBack(o, [], rest) && t.attached == Attached(o, [], rest)
             && MadeUp(app, o, name, [], t))
      || (&& SplitWindows(t.token).Some?
          && var (name, value) := SplitWindows(t.token).value;
             && (name in o.lnames || name in o.snames) && t.rest == [] && t.attached == Attached(o, value, [])
             && MadeUp(app, o, name, value, t))
  }

  /** A turn accounts for exactly the tokens it uses up. */
  ghost predicate Accounts(app: App, line: seq<string>, t: Taken) {
    && InApp(app, t) && Genuine(app, t)
    && 1 <= Used(t) <= |line| && Spelled(t) == line[..Used(t)]
  }

  lemma RestAccounts(app: App, st: State, line: seq<string>, i: nat, name: string, rest: string,
                     attached: seq<string>, first: seq<string>, n: nat)
    requires IsApp(app) && IsState(app, st) && i < |app.options| && 1 + n <= |line|
    ensures var r := DecideRest(app, st, line, i, name, rest, attached, first, n);
            r.Ok? ==>
              var t := r.value;
              && t.TookOption? && t.index == i && t.token == line[0] && t.rest == rest && t.attached == attached
              && t.flagFirst == first
              && 1 <= Used(t) <= |line| && Spelled(t) == line[..Used(t)]
  {
    hide TakesMore, FlagLast, Padding, RemainingRequired;
    var r := DecideRest(app, st, line, i, name, rest, attached, first, n);
    if r.Ok? {
      var t := r.value;
      var k := 1 + |t.values|;
      assert [line[0]] + line[1..k] == line[..k];
      if t.ateMark {
        assert line[..k] + [line[k]] == line[..k + 1];
      } else {
        assert line[..k] + [] == line[..k];
      }
    }
  }

  /** The default flag text and the filler go by the number of values taken. */
  lemma RestMadeUp(app: App, st: State, line: seq<string>, i: nat, name: string, rest: string,
                   attached: seq<string>, first: seq<string>, n: nat)
    requires IsApp(app) && IsState(app, st) && i < |app.options| && 1 + n <= |line|
    ensures var r, o := DecideRest(app, st, line, i, name, rest, attached, first, n), app.options[i];
            r.Ok? ==>
              var collected := |r.value.attached| + |r.value.values|;
              && r.value.TookOption? && IsOpt(o)
              && r.value.flagLast == FlagLast(app, o, name, collected) && Padding(o, collected) == Ok(r.value.padding)
  {
    hide Padding, RemainingRequired, MaxNum, MinNum, FlagValue;
    assert IsOpt(app.options[i]);
  }

  lemma OptionAccounts(app: App, st: State, line: seq<string>, i: nat, name: string, value: string, rest: string)
    requires IsApp(app) && IsState(app, st) && i < |app.options| && line != []
    ensures var r := DecideOption(app, st, line, i, name, value, rest);
            r.Ok? ==>
              var t := r.value;
              && t.TookOption? && t.index == i && t.token == line[0]
              && t.rest == PutBack(app.options[i], value, rest) && t.attached == Attached(app.options[i], value, rest)
              && MadeUp(app, app.options[i], name, value, t)
              && 1 <= Used(t) <= |line| && Spelled(t) == line[..Used(t)]
  {
    hide DecideRest, Attached, PutBack, FlagFirst, FlagLast, Padding, Used, Spelled, IsOpt;
    var o := app.options[i];
    var first := FlagFirst(app, o, name, value);
    var attached := Attached(o, value, rest);
    var n := RequiredValues(o, |attached|, |line| - 1);
    if first.Ok? && n >= 0 {
      RestAccounts(app, st, line, i, name, PutBack(o, value, rest), attached, first.value, n);
      RestMadeUp(app, st, line, i, name, PutBack(o, value, rest), attached, first.value, n);
    }
  }

  lemma ArgAccounts(app: App, st: State, line: seq<string>, kind: Classifier)
    requires IsApp(app) && IsState(app, st) && line != [] && kind == Recognize(app, line[0])
    requires kind == LONG || kind == SHORT || kind == WINDOWS_STYLE
    ensures var r := DecideArg(app, st, line, kind); r.Ok? ==> Accounts(app, line, r.value)
  {
    hide DecideOption, Attached, SplitAt, MadeUp;
    var token := line[0];
    if kind == LONG {
      var (name, value) := SplitLong(token).value;
      var i := FindLong(app.options, name, 0);
      if i < |app.options| { OptionAccounts(app, st, line, i, name, value, []); }
    } else if kind == SHORT {
      var (name, rest) := SplitShort(token).value;
      var i := FindShort(app.options, name, 0);
      if i < |app.options| { OptionAccounts(app, st, line, i, name, [], rest); }
    } else {
      var (name, value) := SplitWindows(token).value;
      var i := FindEither(app.options, name);
      if i < |app.options| { OptionAccounts(app, st, line, i, name, value, []); }
    }
  }

  lemma DecideAccounts(app: App, st: State, line: seq<string>, positionalOnly: bool)
    requires IsApp(app) && IsState(app, st) && line != []
    ensures var r := Decide(app, st, line, positionalOnly); r.Ok? ==> Accounts(app, line, r.value)
  {
    hide DecideArg, Positional, SplitLong, SplitShort, SplitWindows, MadeUp;
    var kind := KindOf(app, line[0], positionalOnly);
    if kind != NONE && kind != POSITIONAL_MARK {
      ArgAccounts(app, st, line, kind);
    } else {
      assert line[..1] == [line[0]];
      assert line[..|line|] == line;
    }
  }

  /** Every turn makes the command line smaller, letters put back included. */
  lemma TurnShrinks(app: App, line: seq<string>, t: Taken)
    requires Accounts(app, line, t)
    ensures Size(Remaining(line, t)) < Size(line)
  {
    hide SplitLong, SplitWindows, Attached, Size, MadeUp;
    var n := Used(t);
    SizeSplit(line, n);
    SizeSplit(Remaining(line, t), |Returned(t)|);
    assert Remaining(line, t)[|Returned(t)|..] == line[n..];
    assert Remaining(line, t)[..|Returned(t)|] == Returned(t);
    if Returned(t) == [] {
      SizeEmpty();
    } else {
      assert t.token == Spelled(t)[0] == line[0];
      SizeSplit(line[..n], 1);
      assert line[..n][..1] == [line[0]];
      SizeOne(line[0]);
      SizeOne("-" + t.rest);
    }
  }

  lemma SizeEmpty()
    ensures Size([]) == 0
  {
  }

  lemma SizeOne(token: string)
    ensures Size([token]) == |token| + 1
  {
    assert [token][1..] == [];
  }

  // ---------------------------------------------------------------- whole runs

  /** The loop: the final state and what each turn took, or Thrown. */
  function Run(app: App, st: State, line: seq<string>, positionalOnly: bool): Result<(State, seq<Taken>)>
    requires IsApp(app) && IsState(app, st)
    decreases Size(line)
  {
    if line == [] then Ok((st, []))
    else
      match Decide(app, st, line, positionalOnly)
      case Thrown => Thrown
      case Ok(t) =>
        DecideAccounts(app, st, line, positionalOnly);
        TurnShrinks(app, line, t);
        match Run(app, Apply(app, st, t), Remaining(line, t), PositionalOnly(app, line[0], positionalOnly))
        case Thrown => Thrown
        case Ok((end, ts)) => Ok((end, [t] + ts))
  }

  /** The command line that a sequence of turns accounts for: each turn's own
      tokens, less the token it returned to the next. */
  function CommandLine(ts: seq<Taken>): seq<string> {
    if ts == [] then []
    else
      var rest := CommandLine(ts[1..]);
      Spelled(ts[0]) + if |Returned(ts[0])| <= |rest| then rest[|Returned(ts[0])|..] else []
  }

  /** The values option `i` gets from a sequence of turns. */
  function GainedBy(ts: seq<Taken>, i: nat): seq<string> {
    if ts == [] then []
    else (if !ts[0].TookMissing? && ts[0].index == i then Gained(ts[0]) else []) + GainedBy(ts[1..], i)
  }

  function MissingBy(ts: seq<Taken>): seq<(Classifier, string)> {
    if ts == [] then [] else (if ts[0].TookMissing? then ts[0].tokens else []) + MissingBy(ts[1..])
  }

  predicate AllGenuine(app: App, ts: seq<Taken>) {
    forall k | 0 <= k < |ts| :: Genuine(app, ts[k])
  }

  /** The letters a turn puts back are what the next turns start with. */
  predicate AllReturned(ts: seq<Taken>) {
    forall k | 0 <= k < |ts| :: Returned(ts[k]) <= CommandLine(ts[k + 1..])
  }

  lemma CommandLineStep(line: seq<string>, t: Taken, rest: seq<string>)
    requires Used(t) <= |line| && Spelled(t) == line[..Used(t)] && rest == Remaining(line, t)
    ensures Spelled(t) + (if |Returned(t)| <= |rest| then rest[|Returned(t)|..] else []) == line
  {
    hide Spelled, Used, Returned;
    assert rest[|Returned(t)|..] == line[Used(t)..];
    assert line[..Used(t)] + line[Used(t)..] == line;
  }

  lemma ApplyGains(app: App, st: State, t: Taken, i: nat)
    requires IsState(app, st) && InApp(app, t) && i < |app.options|
    ensures Apply(app, st, t).results[i] ==
            st.results[i] + (if !t.TookMissing? && t.index == i then Gained(t) else [])
    ensures Apply(app, st, t).missing == st.missing + (if t.TookMissing? then t.tokens else [])
  {
    hide Gained, Uses;
  }

  /** The first turn of a run that does not throw, and the run after it. */
  lemma RunStep(app: App, st: State, line: seq<string>, positionalOnly: bool)
    returns (t: Taken, next: State, rest: seq<string>, only: bool, ts: seq<Taken>)
    requires IsApp(app) && IsState(app, st) && line != [] && Run(app, st, line, positionalOnly).Ok?
    ensures Accounts(app, line, t) && IsState(app, next) && next == Apply(app, st, t)
    ensures rest == Remaining(line, t) && Size(rest) < Size(line)
    ensures Run(app, next, rest, only).Ok? && Run(app, next, rest, only).value.1 == ts
    ensures Run(app, st, line, positionalOnly) == Ok((Run(app, next, rest, only).value.0, [t] + ts))
  {
    hide Decide, Genuine, Spelled, Apply, PositionalOnly, Size;
    t := Decide(app, st, line, positionalOnly).value;
    DecideAccounts(app, st, line, positionalOnly);
    TurnShrinks(app, line, t);
    next, rest, only := Apply(app, st, t), Remaining(line, t), PositionalOnly(app, line[0], positionalOnly);
    ts := Run(app, next, rest, only).value.1;
  }

  lemma ConsGained(t: Taken, ts: seq<Taken>, i: nat)
    ensures GainedBy([t] + ts, i) == (if !t.TookMissing? && t.index == i then Gained(t) else []) + GainedBy(ts, i)
    ensures MissingBy([t] + ts) == (if t.TookMissing? then t.tokens else []) + MissingBy(ts)
  {
    hide Gained;
    assert ([t] + ts)[1..] == ts;
  }

  lemma ConsCommandLine(t: Taken, ts: seq<Taken>, line: seq<string>)
    requires Used(t) <= |line| && Spelled(t) == line[..Used(t)] && CommandLine(ts) == Remaining(line, t)
    ensures CommandLine([t] + ts) == line
  {
    hide Spelled, Used, Returned, Remaining;
    assert ([t] + ts)[1..] == ts;
    CommandLineStep(line, t, CommandLine(ts));
  }

  lemma ConsReturned(t: Taken, ts: seq<Taken>, line: seq<string>)
    requires Used(t) <= |line| && CommandLine(ts) == Remaining(line, t) && AllReturned(ts)
    ensures AllReturned([t] + ts)
  {
    hide Used, Returned, CommandLine;
    var all := [t] + ts;
    forall k | 0 <= k < |all|
      ensures Returned(all[k]) <= CommandLine(all[k + 1..])
    {
      if k == 0 {
        assert all[1..] == ts;
      } else {
        assert all[k] == ts[k - 1] && all[k + 1..] == ts[k..];
      }
    }
  }

  lemma {:induction false} LineAccounted(app: App, st: State, line: seq<string>, positionalOnly: bool)
    requires IsApp(app) && IsState(app, st) && Run(app, st, line, positionalOnly).Ok?
    ensures var ts := Run(app, st, line, positionalOnly).value.1;
            CommandLine(ts) == line && AllGenuine(app, ts) && AllReturned(ts)
    decreases Size(line)
  {
    if line != [] {
      hide Run, Genuine, Apply, Remaining, Used, Spelled, CommandLine, Size, AllReturned;
      var t, next, rest, only, ts := RunStep(app, st, line, positionalOnly);
      LineAccounted(app, next, rest, only);
      ConsCommandLine(t, ts, line);
      ConsReturned(t, ts, line);
    }
  }

  lemma {:induction false} ResultsAccounted(app: App, st: State, line: seq<string>, positionalOnly: bool, i: nat)
    requires IsApp(app) && IsState(app, st) && i < |app.options|
    requires Run(app, st, line, positionalOnly).Ok?
    ensures var (end, ts) := Run(app, st, line, positionalOnly).value;
            IsState(app, end) && end.results[i] == st.results[i] + GainedBy(ts, i)
    decreases Size(line)
  {
    if line != [] {
      hide Run, Genuine, Apply, Remaining, Used, Spelled, Gained, GainedBy, MissingBy, Size;
      var t, next, rest, only, ts := RunStep(app, st, line, positionalOnly);
      ResultsAccounted(app, next, rest, only, i);
      ApplyGains(app, st, t, i);
      ConsGained(t, ts, i);
      var gained := if !t.TookMissing? && t.index == i then Gained(t) else [];
      Assoc(st.results[i], gained, GainedBy(ts, i));
    }
  }

  lemma {:induction false} MissingAccounted(app: App, st: State, line: seq<string>, positionalOnly: bool, i: nat)
    requires IsApp(app) && IsState(app, st) && i < |app.options|
    requires Run(app, st, line, positionalOnly).Ok?
    ensures var (end, ts) := Run(app, st, line, positionalOnly).value; end.missing == st.missing + MissingBy(ts)
    decreases Size(line)
  {
    if line != [] {
      hide Run, Genuine, Apply, Remaining, Used, Spelled, Gained, GainedBy, MissingBy, Size;
      var t, next, rest, only, ts := RunStep(app, st, line, positionalOnly);
      MissingAccounted(app, next, rest, only, i);
      ApplyGains(app, st, t, i);
      ConsGained(t, ts, i);
      Assoc(st.missing, if t.TookMissing? then t.tokens else [], MissingBy(ts));
    }
  }

  /** Conservation over every run that does not throw: the turns account for the
      whole command line, token by token and in order, and truly; letters put back
      are the next token; each option ends with exactly the values the turns gave it,
      which are tokens of the line or made up as its occurrence says; and the rest is in
      `missing`. */
  lemma Conservation(app: App, st: State, line: seq<string>, positionalOnly: bool, i: nat)
    requires IsApp(app) && IsState(app, st) && i < |app.options|
    ensures var run := Run(app, st, line, positionalOnly);
            run.Ok? ==>
              var (end, ts) := run.value;
              && CommandLine(ts) == line && AllGenuine(app, ts) && AllReturned(ts)
              && IsState(app, end) && end.results[i] == st.results[i] + GainedBy(ts, i)
              && end.missing == st.missing + MissingBy(ts)
  {
    hide Run, CommandLine, AllGenuine, AllReturned, GainedBy, MissingBy;
    if Run(app, st, line, positionalOnly).Ok? {
      LineAccounted(app, st, line, positionalOnly);
      ResultsAccounted(app, st, line, positionalOnly, i);
      MissingAccounted(app, st, line, positionalOnly, i);
    }
  }
}
