/** Bundled short flags in external/CLI/CLI11.hpp: when they mean the same as
    separate ones. */
module Bundles {
  import opened Text
  import opened ArgParser

  // ---------------------------------------------------------------- one letter

  /** The letter names an option that takes no values, unless extra ones. */
  predicate IsFlagLetter(app: App, c: char) {
    ValidFirst(c) && OptionOf(app, c) < |app.options| && MaxNum(app.options[OptionOf(app, c)]) == 0
  }

  function OptionOf(app: App, c: char): nat {
    FindShort(app.options, [c], 0)
  }

  predicate AllowsExtra(app: App, c: char)
    requires IsFlagLetter(app, c)
  {
    app.options[OptionOf(app, c)].allowExtra
  }

  predicate AllFlagLetters(app: App, letters: string) {
    forall k | 0 <= k < |letters| :: IsFlagLetter(app, letters[k])
  }

  function Separate(letters: string): seq<string> {
    if letters == [] then [] else [['-', letters[0]]] + Separate(letters[1..])
  }

  lemma NoMaxNoMin(o: Opt)
    requires IsOpt(o) && MaxNum(o) == 0
    ensures MinNum(o) == 0
  {
    if o.typeMin > 0 && o.expectedMin > 0 {
      Positive(o.typeMax, o.expectedMin);
      Positive(o.typeMax, o.expectedMax);
    }
    if o.typeMin == 0 || o.expectedMin == 0 {
      assert ItemsMin(o) == 0;
    }
  }

  lemma Positive(a: nat, b: nat)
    requires a > 0 && b > 0
    ensures Checked(a, b) > 0
  {
    assert a * b > 0;
  }

  lemma FlagToken(app: App, c: char, rest: string)
    requires IsFlagLetter(app, c)
    ensures var token := ['-', c] + rest;
            && Recognize(app, token) == SHORT && SplitShort(token) == Some(([c], rest))
            && !PositionalOnly(app, token, false)
  {
    var token := ['-', c] + rest;
    assert token[0] == '-' && token[1] == c && token[1..2] == [c] && token[2..] == rest;
    assert token != "--" && SplitLong(token).None?;
  }

  /** What a turn takes for a flag letter in front of `rest`. */
  function FlagTaken(app: App, c: char, rest: string, values: seq<string>, mark: bool): Taken
    requires IsApp(app) && IsFlagLetter(app, c)
  {
    var i := OptionOf(app, c);
    var text := FlagValue(app, app.options[i], [c], []);
    TookOption(i, ['-', c] + rest, rest, [], values, if text.Ok? then [text.value] else [], [], mark, [])
  }

  /** The state after a flag letter that takes nothing else. */
  function FlagState(app: App, st: State, c: char): (r: State)
    requires IsApp(app) && IsState(app, st) && IsFlagLetter(app, c)
    ensures IsState(app, r)
  {
    Apply(app, st, FlagTaken(app, c, [], [], false))
  }

  /** How many values a flag letter takes off the line after its token. */
  function Extras(app: App, st: State, c: char, line: seq<string>): (k: nat)
    requires IsApp(app) && IsState(app, st) && IsFlagLetter(app, c)
    ensures k <= |line|
  {
    var i := OptionOf(app, c);
    if AllowsExtra(app, c) then
      TakeMore(app, line, i, app.options[i], 0, RemainingRequired(app, FlagState(app, st, c).results, 0))
    else 0
  }

  /** Whether it takes the mark `--` after them. */
  predicate EatsMark(app: App, st: State, c: char, line: seq<string>)
    requires IsApp(app) && IsState(app, st) && IsFlagLetter(app, c)
  {
    var k := Extras(app, st, c, line);
    AllowsExtra(app, c) && k < |line| && line[k] == "--"
  }

  /** The turn of a flag letter, on this line. */
  function FlagTurn(app: App, st: State, c: char, rest: string, line: seq<string>): Taken
    requires IsApp(app) && IsState(app, st) && IsFlagLetter(app, c)
  {
    FlagTaken(app, c, rest, line[..Extras(app, st, c, line)], EatsMark(app, st, c, line))
  }

  lemma FlagResults(app: App, st: State, c: char, line: seq<string>, first: seq<string>)
    requires IsApp(app) && IsState(app, st) && IsFlagLetter(app, c) && line != []
    requires first == FlagTaken(app, c, [], [], false).flagFirst
    ensures var i := OptionOf(app, c);
            st.results[i := st.results[i] + (first + [] + line[1..1])] == FlagState(app, st, c).results
  {
    hide FlagValue, MaxNum, ValidFirst;
    assert first + [] + line[1..1] == first;
    assert Gained(FlagTaken(app, c, [], [], false)) == first;
  }

  lemma FlagRest(app: App, st: State, c: char, rest: string, line: seq<string>, first: seq<string>)
    requires IsApp(app) && IsState(app, st) && IsFlagLetter(app, c)
    requires first == FlagTaken(app, c, [], [], false).flagFirst
    ensures DecideRest(app, st, [['-', c] + rest] + line, OptionOf(app, c), [c], rest, [], first, 0) ==
            Ok(FlagTurn(app, st, c, rest, line))
  {
    hide RemainingRequired, TakeMore, FlagValue, ValidFirst, MaxNum, MinNum, FlagState;
    var whole, i := [['-', c] + rest] + line, OptionOf(app, c);
    assert IsOpt(app.options[i]);
    NoMaxNoMin(app.options[i]);
    FlagResults(app, st, c, whole, first);
    assert whole[1..] == line;
    var k := Extras(app, st, c, line);
    assert whole[1..1 + k] == line[..k];
    if k < |line| {
      assert whole[1 + k] == line[k];
    }
  }

  lemma FlagOption(app: App, st: State, c: char, rest: string, line: seq<string>)
    requires IsApp(app) && IsState(app, st) && IsFlagLetter(app, c)
    ensures DecideOption(app, st, [['-', c] + rest] + line, OptionOf(app, c), [c], [], rest) ==
            Ok(FlagTurn(app, st, c, rest, line))
  {
    hide DecideRest, MaxNum, MinNum, FlagTurn;
    var o := app.options[OptionOf(app, c)];
    assert IsOpt(o);
    NoMaxNoMin(o);
    FlagRest(app, st, c, rest, line, [FlagValue(app, o, [c], []).value]);
  }

  lemma FlagDecided(app: App, st: State, c: char, rest: string, line: seq<string>)
    requires IsApp(app) && IsState(app, st) && IsFlagLetter(app, c)
    ensures Decide(app, st, [['-', c] + rest] + line, false) == Ok(FlagTurn(app, st, c, rest, line))
  {
    hide DecideOption, SplitShort, SplitLong, Recognize, FlagTurn, MaxNum, ValidFirst;
    var whole := [['-', c] + rest] + line;
    FlagToken(app, c, rest);
    FlagOption(app, st, c, rest, line);
    assert whole[0] == ['-', c] + rest;
  }

  /** A run with `t` as its first turn. */
  function After(t: Taken, run: Result<(State, seq<Taken>)>): Result<(State, seq<Taken>)> {
    match run case Thrown => Thrown case Ok((end, ts)) => Ok((end, [t] + ts))
  }

  function Dashed(rest: string): seq<string> {
    if rest != [] then ["-" + rest] else []
  }

  /** A run goes on after a flag letter with the rest of its token put back. */
  lemma FlagRun(app: App, st: State, c: char, rest: string, line: seq<string>)
    requires IsApp(app) && IsState(app, st) && IsFlagLetter(app, c)
    ensures var t, n := FlagTurn(app, st, c, rest, line), Left(app, st, c, line);
            && InApp(app, t) && n <= |line|
            && Run(app, st, [['-', c] + rest] + line, false) ==
               After(t, Run(app, Apply(app, st, t), Dashed(rest) + line[n..], false))
  {
    hide Decide, FlagValue, PositionalOnly, Size, Apply, MaxNum, ValidFirst, Genuine, Spelled, Extras;
    var whole, t := [['-', c] + rest] + line, FlagTurn(app, st, c, rest, line);
    FlagDecided(app, st, c, rest, line);
    FlagToken(app, c, rest);
    DecideAccounts(app, st, whole, false);
    TurnShrinks(app, whole, t);
    assert whole[0] == ['-', c] + rest;
    assert Used(t) == 1 + Left(app, st, c, line);
    assert whole[Used(t)..] == line[Left(app, st, c, line)..];
    assert Remaining(whole, t) == Dashed(rest) + line[Left(app, st, c, line)..];
  }

  /** Where the line goes on after a flag letter. */
  function Left(app: App, st: State, c: char, line: seq<string>): nat
    requires IsApp(app) && IsState(app, st) && IsFlagLetter(app, c)
  {
    Extras(app, st, c, line) + if EatsMark(app, st, c, line) then 1 else 0
  }

  // ---------------------------------------------------------------- the law

  /** What a turn does, apart from the text of its token. */
  function Deed(t: Taken): Taken {
    if t.TookOption? then t.(token := [], rest := []) else t
  }

  function Deeds(run: Result<(State, seq<Taken>)>): Result<seq<Taken>> {
    match run
    case Thrown => Thrown
    case Ok((_, ts)) => Ok(seq(|ts|, k requires 0 <= k < |ts| => Deed(ts[k])))
  }

  function EndState(run: Result<(State, seq<Taken>)>): Result<State> {
    match run case Thrown => Thrown case Ok((end, _)) => Ok(end)
  }

  /** Whether a flag letter takes anything off the line: it allows extra values,
      and the line starts with the mark `--`, or with a plain token that is not kept
      for a required positional and that the validators let through. */
  predicate Reaches(app: App, st: State, c: char, line: seq<string>)
    requires IsApp(app) && IsState(app, st) && IsFlagLetter(app, c)
  {
    && AllowsExtra(app, c) && line != []
    && (|| line[0] == "--"
        || (&& Recognize(app, line[0]) == NONE
            && RemainingRequired(app, FlagState(app, st, c).results, 0) < |line|
            && (app.validateOptional ==> app.accepts(OptionOf(app, c), line[0]))))
  }

  /** The text after the letters is the mark `--` once it stands alone, and so is
      the next token: a letter before it takes the one or the other. */
  predicate TwoMarks(tail: string, line: seq<string>) {
    tail == "-" && line != [] && line[0] == "--"
  }

  /** No letter reaches past the bundle, and the last one not for the text after
      it when that stands alone. */
  predicate Untouched(app: App, st: State, letters: string, tail: string, line: seq<string>)
    requires IsApp(app) && IsState(app, st) && AllFlagLetters(app, letters)
    decreases |letters|
  {
    letters == [] ||
    var c, more := letters[0], letters[1..];
    && (|| (!Reaches(app, st, c, line) && (more == [] ==> !Reaches(app, st, c, ["-" + tail] + line)))
        || (more == [] && TwoMarks(tail, line)))
    && Untouched(app, FlagState(app, st, c), more, tail, line)
  }

  lemma ReachesExactly(app: App, st: State, c: char, line: seq<string>)
    requires IsApp(app) && IsState(app, st) && IsFlagLetter(app, c)
    ensures Reaches(app, st, c, line) <==> Extras(app, st, c, line) > 0 || EatsMark(app, st, c, line)
    ensures line != [] && line[0] == "--" ==> Extras(app, st, c, line) == 0
  {
    hide FlagState, RemainingRequired, SplitLong, SplitShort, SplitWindows, ValidFirst, MaxNum;
  }

  /** The bound on values does not matter to an option that allows extra ones. */
  lemma {:induction false} CollectedIrrelevant(app: App, line: seq<string>, i: nat, o: Opt, m: nat, n: nat, reserved: nat)
    requires o.allowExtra
    ensures TakeMore(app, line, i, o, m, reserved) == TakeMore(app, line, i, o, n, reserved)
    decreases |line|
  {
    hide Recognize, MaxNum;
    if line != [] {
      CollectedIrrelevant(app, line[1..], i, o, m + 1, n + 1, reserved);
    }
  }

  /** One more of the same in front is one more taken. */
  lemma OneMoreInFront(app: App, st: State, c: char, line: seq<string>)
    requires IsApp(app) && IsState(app, st) && IsFlagLetter(app, c) && Extras(app, st, c, line) > 0
    ensures Extras(app, st, c, [line[0]] + line) == 1 + Extras(app, st, c, line)
  {
    hide Recognize, MaxNum, RemainingRequired, FlagState, ValidFirst;
    var i := OptionOf(app, c);
    var reserved := RemainingRequired(app, FlagState(app, st, c).results, 0);
    assert ([line[0]] + line)[1..] == line;
    CollectedIrrelevant(app, line, i, app.options[i], 0, 1, reserved);
  }

  lemma LetterNotReached(app: App, st: State, c: char, d: char, line: seq<string>)
    requires IsApp(app) && IsState(app, st) && IsFlagLetter(app, c) && IsFlagLetter(app, d)
    requires line != [] && line[0] == ['-', d]
    ensures !Reaches(app, st, c, line)
  {
    FlagToken(app, d, []);
    assert ['-', d] + [] == ['-', d];
  }

  /** The line a letter sees when the bundle is taken apart. */
  function Apart(more: string, tail: string, line: seq<string>): seq<string> {
    Separate(more) + ["-" + tail] + line
  }

  lemma SeparateHead(more: string, tail: string, line: seq<string>)
    requires more != []
    ensures Apart(more, tail, line) != [] && Apart(more, tail, line)[0] == ['-', more[0]]
  {
  }

  /** The first letter does the same in a bundle and apart exactly where it reaches
      for nothing, or finds a mark both ways. */
  lemma FirstLetter(app: App, st: State, c: char, more: string, tail: string, line: seq<string>)
    requires IsApp(app) && IsState(app, st) && IsFlagLetter(app, c) && AllFlagLetters(app, more) && tail != []
    ensures var apart := Apart(more, tail, line);
            Deed(FlagTurn(app, st, c, more + tail, line)) == Deed(FlagTurn(app, st, c, [], apart)) <==>
            || (!Reaches(app, st, c, line) && (more == [] ==> !Reaches(app, st, c, ["-" + tail] + line)))
            || (more == [] && TwoMarks(tail, line))
  {
    hide Reaches, Extras, FlagValue, IsFlagLetter, AllowsExtra;
    var apart := Apart(more, tail, line);
    ReachesExactly(app, st, c, line);
    ReachesExactly(app, st, c, apart);
    if more != [] {
      LetterNotReached(app, st, c, more[0], apart);
    } else {
      assert apart == ["-" + tail] + line;
      LastLetter(app, st, c, tail, line);
    }
  }

  lemma LastLetter(app: App, st: State, c: char, tail: string, line: seq<string>)
    requires IsApp(app) && IsState(app, st) && IsFlagLetter(app, c) && tail != []
    ensures var apart := ["-" + tail] + line;
            && line[..Extras(app, st, c, line)] == apart[..Extras(app, st, c, apart)]
            && EatsMark(app, st, c, line) == EatsMark(app, st, c, apart) <==>
            (!Reaches(app, st, c, line) && !Reaches(app, st, c, apart)) || TwoMarks(tail, line)
  {
    hide Reaches, Extras, FlagValue, IsFlagLetter;
    var apart := ["-" + tail] + line;
    ReachesExactly(app, st, c, line);
    ReachesExactly(app, st, c, apart);
    var k, n := Extras(app, st, c, line), Extras(app, st, c, apart);
    if k > 0 && line[..k] == apart[..n] {
      assert line[..k][0] == apart[..n][0];
      OneMoreInFront(app, st, c, line);
      assert false;
    }
    assert ("-" + tail)[1..] == tail;
    if k == 0 && line[..k] == apart[..n] {
      assert n == 0 by {
        assert |line[..k]| == |apart[..n]|;
      }
    }
    if TwoMarks(tail, line) {
      assert "-" + tail == "--";
    }
  }

  lemma DeedsAfter(t: Taken, u: Taken, a: Result<(State, seq<Taken>)>, b: Result<(State, seq<Taken>)>)
    ensures Deeds(After(t, a)) == Deeds(After(u, b)) <==>
            (a.Thrown? && b.Thrown?) || (Deed(t) == Deed(u) && Deeds(a) == Deeds(b))
  {
    hide Deed;
    if a.Ok? && b.Ok? {
      var x, y := Deeds(After(t, a)).value, Deeds(After(u, b)).value;
      assert x == [Deed(t)] + Deeds(a).value;
      assert y == [Deed(u)] + Deeds(b).value;
      assert x[0] == Deed(t) && y[0] == Deed(u);
      assert x[1..] == Deeds(a).value && y[1..] == Deeds(b).value;
    }
  }

  lemma SameDeedSameState(app: App, st: State, t: Taken, u: Taken)
    requires IsState(app, st) && InApp(app, t) && InApp(app, u) && Deed(t) == Deed(u)
    ensures Apply(app, st, t) == Apply(app, st, u)
  {
  }

  function Bundled(letters: string, tail: string, line: seq<string>): seq<string> {
    ["-" + letters + tail] + line
  }

  lemma BundleShapes(letters: string, tail: string, line: seq<string>)
    requires letters != []
    ensures var c, more := letters[0], letters[1..];
            && Bundled(letters, tail, line) == [['-', c] + (more + tail)] + line
            && Apart(letters, tail, line) == [['-', c] + []] + Apart(more, tail, line)
  {
    var c, more := letters[0], letters[1..];
    assert letters == [c] + more;
    assert "-" + ([c] + more) + tail == ['-', c] + (more + tail);
    assert ['-', c] + [] == ['-', c];
    assert [['-', c]] + Separate(more) + ["-" + tail] + line == [['-', c]] + (Separate(more) + ["-" + tail] + line);
  }

  /** A letter that reaches for nothing leaves the line as it is, both ways. */
  lemma NothingTaken(app: App, st: State, c: char, more: string, tail: string, line: seq<string>)
    requires IsApp(app) && IsState(app, st) && IsFlagLetter(app, c) && tail != []
    requires !Reaches(app, st, c, line) && !Reaches(app, st, c, Apart(more, tail, line))
    ensures var apart := Apart(more, tail, line);
            && Left(app, st, c, line) == 0 == Left(app, st, c, apart)
            && InApp(app, FlagTurn(app, st, c, more + tail, line))
            && Apply(app, st, FlagTurn(app, st, c, more + tail, line)) == FlagState(app, st, c)
            && Dashed(more + tail) + line[0..] == Bundled(more, tail, line)
            && Dashed([]) + apart[0..] == apart
  {
    hide Reaches, Extras, FlagValue, AllowsExtra, Apart, ValidFirst, MaxNum;
    var apart := Apart(more, tail, line);
    ReachesExactly(app, st, c, line);
    ReachesExactly(app, st, c, apart);
    assert "-" + (more + tail) == "-" + more + tail;
    assert line[..0] == [];
    SameDeedSameState(app, st, FlagTurn(app, st, c, more + tail, line), FlagTaken(app, c, [], [], false));
  }

  /** A letter that takes one of two marks leaves the other. */
  lemma OneMarkLeft(app: App, st: State, c: char, tail: string, line: seq<string>)
    requires IsApp(app) && IsState(app, st) && IsFlagLetter(app, c) && TwoMarks(tail, line)
    ensures var apart := Apart([], tail, line);
            && Left(app, st, c, line) <= |line| && Left(app, st, c, apart) <= |apart|
            && Dashed([] + tail) + line[Left(app, st, c, line)..] == Dashed([]) + apart[Left(app, st, c, apart)..]
  {
    hide Reaches, Extras, FlagValue, IsFlagLetter;
    var apart := Apart([], tail, line);
    assert [] + tail == tail && "-" + tail == "--" && apart == ["--"] + line;
    ReachesExactly(app, st, c, line);
    ReachesExactly(app, st, c, apart);
    if AllowsExtra(app, c) {
      assert line == ["--"] + line[1..];
      assert apart[1..] == line;
    }
  }

  /** Bundles preserve meaning, exactly when no letter reaches past its bundle:
      then the run does, turn by turn, what it does for the flags one by one and the
      other text as a token of its own, and ends in the same state.  Otherwise the
      turns differ, or both runs throw. */
  lemma {:induction false} BundleMeansSeparate(app: App, st: State, letters: string, tail: string, line: seq<string>)
    requires IsApp(app) && IsState(app, st) && AllFlagLetters(app, letters) && tail != []
    ensures var b := Run(app, st, Bundled(letters, tail, line), false);
            var s := Run(app, st, Apart(letters, tail, line), false);
            && (Deeds(b) == Deeds(s) <==> Untouched(app, st, letters, tail, line) || (b.Thrown? && s.Thrown?))
            && (Untouched(app, st, letters, tail, line) ==> EndState(b) == EndState(s))
    decreases |letters|
  {
    hide Run, FlagTurn, Apply, IsFlagLetter, Reaches, Deed, Deeds, FlagState, Left;
    if letters == [] {
      assert "-" + letters + tail == "-" + tail;
      assert Separate(letters) + ["-" + tail] + line == ["-" + tail] + line;
    } else {
      var c, more := letters[0], letters[1..];
      var apart := Apart(more, tail, line);
      FlagRun(app, st, c, more + tail, line);
      FlagRun(app, st, c, [], apart);
      BundleShapes(letters, tail, line);
      var t, u := FlagTurn(app, st, c, more + tail, line), FlagTurn(app, st, c, [], apart);
      FirstLetter(app, st, c, more, tail, line);
      var b := Run(app, Apply(app, st, t), Dashed(more + tail) + line[Left(app, st, c, line)..], false);
      var s := Run(app, Apply(app, st, u), Dashed([]) + apart[Left(app, st, c, apart)..], false);
      DeedsAfter(t, u, b, s);
      if Deed(t) == Deed(u) {
        SameDeedSameState(app, st, t, u);
        if more == [] && TwoMarks(tail, line) {
          OneMarkLeft(app, st, c, tail, line);
          assert more + tail == [] + tail;
        } else {
          if more != [] {
            SeparateHead(more, tail, line);
            LetterNotReached(app, st, c, more[0], apart);
          } else {
            assert apart == ["-" + tail] + line;
          }
          NothingTaken(app, st, c, more, tail, line);
          BundleMeansSeparate(app, FlagState(app, st, c), more, tail, line);
        }
      }
    }
  }

  // ---------------------------------------------------------------- what a caller can see

  predicate IsOption(app: App, token: string) {
    var kind := Recognize(app, token);
    kind != NONE && kind != POSITIONAL_MARK
  }

  predicate NoneAllowsExtra(app: App, letters: string)
    requires AllFlagLetters(app, letters)
  {
    forall k | 0 <= k < |letters| :: !AllowsExtra(app, letters[k])
  }

  /** Two ways to know that a bundle is safe: no letter allows extra values, or the
      text after the letters is an option and so is the next token, if there is one. */
  lemma {:induction false} SafeBundle(app: App, st: State, letters: string, tail: string, line: seq<string>)
    requires IsApp(app) && IsState(app, st) && AllFlagLetters(app, letters) && tail != []
    requires NoneAllowsExtra(app, letters) || (IsOption(app, "-" + tail) && (line == [] || IsOption(app, line[0])))
    ensures Untouched(app, st, letters, tail, line)
    decreases |letters|
  {
    if letters != [] {
      hide FlagState, RemainingRequired, SplitLong, SplitShort, SplitWindows, ValidFirst, MaxNum;
      SafeBundle(app, FlagState(app, st, letters[0]), letters[1..], tail, line);
    }
  }

  lemma FirstGain(t: Taken, ts: seq<Taken>, i: nat)
    requires ts != [] && ts[0] == t && t.TookOption? && t.index == i
    ensures |GainedBy(ts, i)| == |Gained(t)| + |GainedBy(ts[1..], i)|
  {
    hide Gained;
  }

  /** How many values the option of a first flag letter ends with. */
  lemma FirstFlagGains(app: App, st: State, c: char, rest: string, line: seq<string>)
    requires IsApp(app) && IsState(app, st) && IsFlagLetter(app, c)
    ensures var run, i := Run(app, st, [['-', c] + rest] + line, false), OptionOf(app, c);
            run.Ok? ==>
              && run.value.1 != [] && IsState(app, run.value.0)
              && |run.value.0.results[i]| ==
                 |st.results[i]| + 1 + Extras(app, st, c, line) + |GainedBy(run.value.1[1..], i)|
  {
    var whole, t := [['-', c] + rest] + line, FlagTurn(app, st, c, rest, line);
    var run, i := Run(app, st, whole, false), OptionOf(app, c);
    if run.Ok? {
      hide Run, Apply, Extras, GainedBy, MissingBy, CommandLine, AllGenuine, AllReturned, EatsMark, MaxNum, ValidFirst;
      FlagRun(app, st, c, rest, line);
      Conservation(app, st, whole, false, i);
      FirstGain(t, run.value.1, i);
      assert IsOpt(app.options[i]);
    }
  }

  /** What a letter takes across its bundle shows in the results, unless its option
      gets as many values again when the bundle is taken apart. */
  lemma TakenAcrossShows(app: App, st: State, letters: string, tail: string, line: seq<string>)
    requires IsApp(app) && IsState(app, st) && AllFlagLetters(app, letters) && letters != [] && tail != []
    requires |letters| == 1 ==> !Reaches(app, st, letters[0], ["-" + tail] + line)
    ensures var b := Run(app, st, Bundled(letters, tail, line), false);
            var s := Run(app, st, Apart(letters, tail, line), false);
            b.Ok? && s.Ok? ==>
              s.value.1 != [] &&
              (|GainedBy(s.value.1[1..], OptionOf(app, letters[0]))| < Extras(app, st, letters[0], line) ==>
                 EndState(b) != EndState(s))
  {
    hide Run, Extras, GainedBy, EatsMark, OptionOf, IsFlagLetter, Reaches;
    var c, more := letters[0], letters[1..];
    var apart := Apart(more, tail, line);
    BundleShapes(letters, tail, line);
    FirstFlagGains(app, st, c, more + tail, line);
    FirstFlagGains(app, st, c, [], apart);
    if more != [] {
      SeparateHead(more, tail, line);
      LetterNotReached(app, st, c, more[0], apart);
    } else {
      assert apart == ["-" + tail] + line;
    }
    ReachesExactly(app, st, c, apart);
  }

  // ---------------------------------------------------------------- two command lines

  function Flag(name: string, allowExtra: bool): Opt {
    Opt([name], [], [], [], [], [], 1, 1, 0, 0, allowExtra, true, false, false, false)
  }

  /** Two flags, of which `-a` allows extra values. */
  function TwoFlags(): App {
    App([Flag("a", true), Flag("b", false)], false, false, false, false, false, (_, _) => true, text => text)
  }

  function Nothing(): State {
    State([[], []], [], [])
  }

  lemma TwoFlagsShape()
    ensures var app := TwoFlags();
            && IsApp(app) && IsState(app, Nothing())
            && IsFlagLetter(app, 'a') && OptionOf(app, 'a') == 0 && AllowsExtra(app, 'a')
            && IsFlagLetter(app, 'b') && OptionOf(app, 'b') == 1 && !AllowsExtra(app, 'b')
  {
    var app := TwoFlags();
    assert app.options[0].snames == ["a"] && app.options[1].snames == ["b"];
    assert "a" != "b";
  }

  /** The state after a letter that takes the first `k` tokens of the line. */
  function Later(st: State, i: nat, line: seq<string>, k: nat): State
    requires i < |st.results| && k <= |line|
  {
    State(st.results[i := st.results[i] + (["true"] + line[..k])], st.missing, st.order + seq(k + 1, _ => i))
  }

  lemma TurnApplied(st: State, c: char, rest: string, line: seq<string>, k: nat)
    requires |st.results| == 2 && (c == 'a' || c == 'b') && k <= |line|
    requires var app := TwoFlags(); IsFlagLetter(app, c) && Extras(app, st, c, line) == k
    ensures var app, i := TwoFlags(), if c == 'a' then 0 else 1;
            Apply(app, st, FlagTurn(app, st, c, rest, line)) == Later(st, i, line, k)
  {
    TwoFlagsShape();
    var app, t := TwoFlags(), FlagTurn(TwoFlags(), st, c, rest, line);
    hide Extras, EatsMark, IsFlagLetter, OptionOf, AllowsExtra;
    assert t.flagFirst == ["true"];
    assert Gained(t) == ["true"] + line[..k] && Uses(t) == k + 1;
  }

  /** The turn of a letter of this app that takes `k` values and no mark. */
  lemma TurnOf(st: State, c: char, rest: string, line: seq<string>, k: nat)
    requires |st.results| == 2 && (c == 'a' || c == 'b') && k <= |line|
    requires var app := TwoFlags(); IsFlagLetter(app, c) && Extras(app, st, c, line) == k && !EatsMark(app, st, c, line)
    ensures var app, i := TwoFlags(), if c == 'a' then 0 else 1;
            EndState(Run(app, st, [['-', c] + rest] + line, false)) ==
            EndState(Run(app, Later(st, i, line, k), Dashed(rest) + line[k..], false))
  {
    hide Run, Extras, EatsMark, IsFlagLetter, OptionOf, AllowsExtra, FlagTurn, Apply, Later, TwoFlags;
    TwoFlagsShape();
    FlagRun(TwoFlags(), st, c, rest, line);
    TurnApplied(st, c, rest, line, k);
  }

  lemma NoneRequired(results: seq<seq<string>>)
    requires |results| == 2
    ensures RemainingRequired(TwoFlags(), results, 0) == 0
  {
    assert RemainingRequired(TwoFlags(), results, 2) == 0;
    assert RemainingRequired(TwoFlags(), results, 1) == 0;
  }

  /** What `-a` takes: nothing if the line ends or goes on with a flag, else its one plain token. */
  lemma ExtrasOf(st: State, line: seq<string>)
    requires |st.results| == 2
    requires line == [] || line[0] == "-a" || line[0] == "-b" || line == ["v"] || line == ["true"]
    ensures var app := TwoFlags();
            && IsFlagLetter(app, 'a') && !EatsMark(app, st, 'a', line)
            && Extras(app, st, 'a', line) == if line == ["v"] || line == ["true"] then 1 else 0
  {
    TwoFlagsShape();
    var app := TwoFlags();
    NoneRequired(FlagState(app, st, 'a').results);
    hide FlagState, RemainingRequired;
    if line == ["v"] || line == ["true"] {
      assert line[1..] == [];
      assert Recognize(app, line[0]) == NONE;
    } else if line != [] {
      FlagToken(app, line[0][1], []);
      assert line[0] == ['-', line[0][1]] + [];
    }
  }

  /** `-b` takes nothing but its flag value. */
  lemma NoExtrasOf(st: State, line: seq<string>)
    requires |st.results| == 2
    ensures var app := TwoFlags();
            IsFlagLetter(app, 'b') && !EatsMark(app, st, 'b', line) && Extras(app, st, 'b', line) == 0
  {
    TwoFlagsShape();
  }

  /** A plain token that nothing takes is left over. */
  lemma LeftOver(st: State)
    requires |st.results| == 2
    ensures EndState(Run(TwoFlags(), st, ["v"], false)) == Ok(st.(missing := st.missing + [(NONE, "v")]))
  {
    var app, line := TwoFlags(), ["v"];
    assert Recognize(app, "v") == NONE;
    assert FindPositional(app, st, "v", false, 2) == 2;
    assert FindPositional(app, st, "v", false, 1) == 2;
    assert Positional(app, st, line) == 2;
    var t := TookMissing([(NONE, "v")]);
    assert Decide(app, st, line, false) == Ok(t) by {
      assert AllMissing(line[..1]) == [(NONE, "v")];
    }
    assert Remaining(line, t) == [];
  }

  lemma EndOfLine(st: State)
    requires |st.results| == 2
    ensures EndState(Run(TwoFlags(), st, [], false)) == Ok(st)
  {
  }

  /** The turn of a letter on a line: the state after it, and what is left of the line. */
  lemma Turn(line: seq<string>, st: State, c: char, rest: string, k: nat, next: State, left: seq<string>)
    requires |st.results| == 2 && (c == 'a' || c == 'b') && line != [] && k < |line| && line[0] == ['-', c] + rest
    requires var app, more := TwoFlags(), line[1..];
             IsFlagLetter(app, c) && Extras(app, st, c, more) == k && !EatsMark(app, st, c, more)
    requires |next.results| == 2 && next.missing == st.missing
    requires var i := if c == 'a' then 0 else 1;
             && next.results[i] == st.results[i] + (["true"] + line[1..1 + k]) && next.results[1 - i] == st.results[1 - i]
             && next.order == st.order + seq(k + 1, _ => i)
    requires if rest == [] then left == line[1 + k..] else left != [] && left[0] == "-" + rest && left[1..] == line[1 + k..]
    ensures EndState(Run(TwoFlags(), st, line, false)) == EndState(Run(TwoFlags(), next, left, false))
  {
    hide Run, TwoFlags, Extras, EatsMark, IsFlagLetter, Later, Dashed;
    var more := line[1..];
    TurnOf(st, c, rest, more, k);
    assert line == [['-', c] + rest] + more;
    assert more[..k] == line[1..1 + k] && more[k..] == line[1 + k..];
    LeftIs(rest, more[k..], left);
    LaterIs(st, if c == 'a' then 0 else 1, more, k, next);
  }

  lemma LeftIs(rest: string, more: seq<string>, left: seq<string>)
    requires if rest == [] then left == more else left != [] && left[0] == "-" + rest && left[1..] == more
    ensures left == Dashed(rest) + more
  {
  }

  lemma LaterIs(st: State, i: nat, line: seq<string>, k: nat, next: State)
    requires |st.results| == 2 == |next.results| && i < 2 && k <= |line| && next.missing == st.missing
    requires next.results[i] == st.results[i] + (["true"] + line[..k]) && next.results[1 - i] == st.results[1 - i]
    requires next.order == st.order + seq(k + 1, _ => i)
    ensures next == Later(st, i, line, k)
  {
    assert next.results == Later(st, i, line, k).results;
  }

  lemma Tails()
    ensures forall a: string :: [a][1..] == []
    ensures forall a: string, b: string :: [a, b][1..] == [b]
    ensures forall a: string, b: string, c: string :: [a, b, c][1..] == [b, c]
  {
  }

  /** `-ab v`: the letter `a` takes `v`, past the letter `b`.  `-a -b v`: it does
      not, and `v` is left over. */
  lemma ExtraFlagTakesAcross()
    ensures var app := TwoFlags();
            && EndState(Run(app, Nothing(), ["-ab", "v"], false)) == Ok(State([["true", "v"], ["true"]], [], [0, 0, 1]))
            && EndState(Run(app, Nothing(), ["-a", "-b", "v"], false)) ==
               Ok(State([["true"], ["true"]], [(NONE, "v")], [0, 1]))
  {
    hide Run, TwoFlags, Extras, EatsMark, IsFlagLetter;
    var both := State([["true", "v"], []], [], [0, 0]);
    Tails();
    ExtrasOf(Nothing(), ["v"]);
    Turn(["-ab", "v"], Nothing(), 'a', "b", 1, both, ["-b"]);
    var end := State([["true", "v"], ["true"]], [], [0, 0, 1]);
    NoExtrasOf(both, []);
    Turn(["-b"], both, 'b', [], 0, end, []);
    EndOfLine(end);
    var one := State([["true"], []], [], [0]);
    ExtrasOf(Nothing(), ["-b", "v"]);
    Turn(["-a", "-b", "v"], Nothing(), 'a', [], 0, one, ["-b", "v"]);
    var two := State([["true"], ["true"]], [], [0, 1]);
    NoExtrasOf(one, ["v"]);
    Turn(["-b", "v"], one, 'b', [], 0, two, ["v"]);
    LeftOver(two);
    assert two.missing + [(NONE, "v")] == [(NONE, "v")];
  }

  lemma BundledByChance(end: State)
    requires end == State([["true", "true", "true"], []], [], [0, 0, 0])
    ensures EndState(Run(TwoFlags(), Nothing(), ["-aa", "true"], false)) == Ok(end)
  {
    hide Run, TwoFlags, Extras, EatsMark, IsFlagLetter;
    var two := State([["true", "true"], []], [], [0, 0]);
    Tails();
    ExtrasOf(Nothing(), ["true"]);
    Turn(["-aa", "true"], Nothing(), 'a', "a", 1, two, ["-a"]);
    ExtrasOf(two, []);
    Turn(["-a"], two, 'a', [], 0, end, []);
    EndOfLine(end);
  }

  lemma ApartByChance(end: State)
    requires end == State([["true", "true", "true"], []], [], [0, 0, 0])
    ensures EndState(Run(TwoFlags(), Nothing(), ["-a", "-a", "true"], false)) == Ok(end)
  {
    hide Run, TwoFlags, Extras, EatsMark, IsFlagLetter;
    var one := State([["true"], []], [], [0]);
    Tails();
    ExtrasOf(Nothing(), ["-a", "true"]);
    Turn(["-a", "-a", "true"], Nothing(), 'a', [], 0, one, ["-a", "true"]);
    ExtrasOf(one, ["true"]);
    Turn(["-a", "true"], one, 'a', [], 1, end, []);
    EndOfLine(end);
  }

  /** `-aa true` and `-a -a true` end alike by chance, because the value looks like
      the flag: the law is about turns, and its condition is not met here. */
  lemma AlikeByChance()
    ensures var app := TwoFlags();
            && EndState(Run(app, Nothing(), ["-aa", "true"], false)) ==
               EndState(Run(app, Nothing(), ["-a", "-a", "true"], false))
            && IsFlagLetter(app, 'a') && !Untouched(app, Nothing(), "a", "a", ["true"])
  {
    hide Run, TwoFlags, Extras, EatsMark, IsFlagLetter, Reaches;
    var end := State([["true", "true", "true"], []], [], [0, 0, 0]);
    BundledByChance(end);
    ApartByChance(end);
    ExtrasOf(Nothing(), ["true"]);
    TwoFlagsShape();
    ReachesExactly(TwoFlags(), Nothing(), 'a', ["true"]);
  }
}
