/** The argument loop as the source runs it, in external/CLI/CLI11.hpp: results,
    leftovers and parse order are updated in place, and the command line is a vector
    whose last element is the next token. */
module ArgLoop {
  import opened Text
  import opened ArgParser

  lemma RevPop(args: seq<string>)
    requires args != []
    ensures Reversed(args)[0] == args[|args| - 1] && Reversed(args)[1..] == Reversed(args[..|args| - 1])
  {
  }

  lemma RevPush(args: seq<string>, token: string)
    ensures Reversed(args + [token]) == [token] + Reversed(args)
  {
  }

  function Copies(n: nat, i: nat): seq<nat> {
    seq(n, _ => i)
  }

  /** The state after option `i` has got some values and as many uses. */
  function After(st: State, i: nat, values: seq<string>, uses: nat): State
    requires i < |st.results|
  {
    State(st.results[i := st.results[i] + values], st.missing, st.order + Copies(uses, i))
  }

  lemma AfterAfter(st: State, i: nat, a: seq<string>, m: nat, b: seq<string>, n: nat)
    requires i < |st.results|
    ensures After(After(st, i, a, m), i, b, n) == After(st, i, a + b, m + n)
  {
    assert (st.results[i] + a) + b == st.results[i] + (a + b);
    assert st.order + Copies(m, i) + Copies(n, i) == st.order + Copies(m + n, i);
  }

  lemma AfterNothing(st: State, i: nat)
    requires i < |st.results|
    ensures After(st, i, [], 0) == st
  {
    assert st.results[i] + [] == st.results[i];
    assert st.results[i := st.results[i]] == st.results;
    assert st.order + Copies(0, i) == st.order;
  }

  /** The values and uses of an occurrence add up from its parts. */
  lemma OptionAdds(st: State, line: seq<string>, t: Taken, n: nat)
    requires t.TookOption? && t.index < |st.results| && n <= |t.values| && 1 + |t.values| <= |line|
    requires t.values == line[1..1 + |t.values|]
    ensures var before := t.flagFirst + t.attached + line[1..1 + n];
            var more := line[1 + n..1 + |t.values|];
            && Gained(t) == before + (more + t.flagLast) + t.padding
            && (t.padding == [] ==> Gained(t) == before + (more + t.flagLast))
            && Uses(t) == |before| + |more| + |t.flagLast|
  {
    assert line[1..1 + n] + line[1 + n..1 + |t.values|] == t.values;
    assert t.flagFirst + t.attached + t.values ==
           t.flagFirst + t.attached + line[1..1 + n] + line[1 + n..1 + |t.values|];
  }

  lemma ApplyIsAfter(app: App, st: State, t: Taken)
    requires IsState(app, st) && InApp(app, t) && !t.TookMissing?
    ensures Apply(app, st, t) == After(st, t.index, Gained(t), Uses(t))
  {
    hide Gained, Uses;
  }

  /** The loop over optional values at position `k` of the command line. */
  lemma TakeMoreAt(app: App, line: seq<string>, k: nat, i: nat, o: Opt, collected: nat, reserved: nat)
    requires k <= |line|
    ensures var takes := && (collected < MaxNum(o) || o.allowExtra) && k < |line| && Recognize(app, line[k]) == NONE
                         && reserved < |line| - k && (app.validateOptional ==> app.accepts(i, line[k]));
            TakeMore(app, line[k..], i, o, collected, reserved) ==
            if takes then 1 + TakeMore(app, line[k + 1..], i, o, collected + 1, reserved) else 0
  {
    hide Recognize, MaxNum;
    if k < |line| {
      assert line[k..][0] == line[k] && line[k..][1..] == line[k + 1..];
    }
  }

  class Loop {
    const app: App
    var results: seq<seq<string>>
    var missing: seq<(Classifier, string)>
    var order: seq<nat>

    ghost predicate Valid()
      reads this
    {
      IsApp(app) && |results| == |app.options|
    }

    ghost function Now(): State
      reads this
    {
      State(results, missing, order)
    }

    constructor (app: App)
      requires IsApp(app)
      ensures Valid() && this.app == app
      ensures Now() == State(seq(|app.options|, _ => []), [], [])
    {
      this.app := app;
      results := seq(|app.options|, _ => []);
      missing := [];
      order := [];
    }

    /** add_result and the entry in the parse order. */
    method AddResult(i: nat, text: string)
      requires Valid() && i < |app.options|
      modifies this
      ensures Valid() && Now() == After(old(Now()), i, [text], 1)
    {
      results := results[i := results[i] + [text]];
      order := order + [i];
      assert Copies(1, i) == [i];
    }

    method MoveToMissing(kind: Classifier, token: string)
      requires Valid()
      modifies `missing
      ensures Valid() && Now() == old(Now()).(missing := old(missing) + [(kind, token)])
    {
      missing := missing + [(kind, token)];
    }

    /** _count_remaining_positionals(true). */
    method CountRemaining() returns (n: nat)
      requires Valid()
      ensures n == RemainingRequired(app, results, 0)
    {
      n := 0;
      for i := 0 to |app.options|
        invariant n + RemainingRequired(app, results, i) == RemainingRequired(app, results, 0)
      {
        var o := app.options[i];
        if o.pname != [] && o.required && |results[i]| < ItemsMin(o) {
          n := n + ItemsMin(o) - |results[i]|;
        }
      }
    }

    /** The loop that gathers the required values. */
    method CollectRequired(i: nat, tokens: seq<string>, n: nat) returns (args: seq<string>, k: nat)
      requires Valid() && i < |app.options|
      modifies this
      ensures Valid() && k == Least(n, |tokens|)
      ensures Reversed(args) == Reversed(tokens)[k..]
      ensures Now() == After(old(Now()), i, Reversed(tokens)[..k], k)
    {
      args, k := tokens, 0;
      ghost var line := Reversed(tokens);
      AfterNothing(Now(), i);
      while n > k && args != []
        invariant Valid() && k <= n && k + |args| == |tokens| && Reversed(args) == line[k..]
        invariant Now() == After(old(Now()), i, line[..k], k)
        decreases |args|
      {
        RevPop(args);
        AfterAfter(old(Now()), i, line[..k], k, [line[k]], 1);
        assert line[..k] + [line[k]] == line[..k + 1];
        var current := args[|args| - 1];
        args := args[..|args| - 1];
        AddResult(i, current);
        k := k + 1;
      }
    }

    /** The loop that gathers the optional values. */
    method CollectMore(i: nat, tokens: seq<string>, start: nat, reserved: nat) returns (args: seq<string>, k: nat)
      requires Valid() && i < |app.options|
      modifies this
      ensures Valid() && k == TakeMore(app, Reversed(tokens), i, app.options[i], start, reserved)
      ensures k <= |tokens| && Reversed(args) == Reversed(tokens)[k..]
      ensures Now() == After(old(Now()), i, Reversed(tokens)[..k], k)
    {
      hide Recognize, MaxNum, TakeMore, After;
      var o := app.options[i];
      args, k := tokens, 0;
      ghost var line := Reversed(tokens);
      AfterNothing(Now(), i);
      assert line[0..] == line && line[..0] == [];
      while (start + k < MaxNum(o) || o.allowExtra) && args != [] && Recognize(app, args[|args| - 1]) == NONE
        invariant Valid() && k + |args| == |tokens| && Reversed(args) == line[k..]
        invariant Now() == After(old(Now()), i, line[..k], k)
        invariant k + TakeMore(app, line[k..], i, o, start + k, reserved) == TakeMore(app, line, i, o, start, reserved)
        decreases |args|
      {
        RevPop(args);
        TakeMoreAt(app, line, k, i, o, start + k, reserved);
        if reserved >= |args| {
          break;
        }
        if app.validateOptional && !app.accepts(i, args[|args| - 1]) {
          break;
        }
        AfterAfter(old(Now()), i, line[..k], k, [line[k]], 1);
        assert line[..k] + [line[k]] == line[..k + 1];
        AddResult(i, args[|args| - 1]);
        args := args[..|args| - 1];
        k := k + 1;
      }
      if args != [] {
        RevPop(args);
      }
      TakeMoreAt(app, line, k, i, o, start + k, reserved);
    }

    /** The padding of an incomplete value, which is no use of the option. */
    method AddPadding(i: nat)
      requires Valid() && i < |app.options|
      modifies `results
      ensures Valid() && Now() == After(old(Now()), i, [[]], 0)
    {
      results := results[i := results[i] + [[]]];
      assert order + Copies(0, i) == order;
    }

    /** Optional values, an end mark and a default flag value. */
    method TakeOptional(i: nat, name: string, tokens: seq<string>, collected: nat)
      returns (args: seq<string>, k: nat, ghost mark: bool, last: seq<string>)
      requires Valid() && i < |app.options|
      modifies this
      ensures Valid()
      ensures var o, line, more := app.options[i], Reversed(tokens), TakesMore(app.options[i], collected);
              && IsOpt(o)
              && k == (if more then TakeMore(app, line, i, o, collected, RemainingRequired(app, old(results), 0)) else 0)
              && k <= |line| && mark == (more && k < |line| && line[k] == "--")
              && last == (if more then FlagLast(app, o, name, collected + k) else [])
              && Reversed(args) == line[k + (if mark then 1 else 0)..]
              && Now() == After(old(Now()), i, line[..k] + last, k + |last|)
    {
      hide RemainingRequired, TakeMore, FlagValue, Recognize, MaxNum, MinNum;
      var o := app.options[i];
      assert IsOpt(o);
      args, k, mark, last := tokens, 0, false, [];
      ghost var line := Reversed(tokens);
      if collected < MaxNum(o) || o.allowExtra {
        var reserved := CountRemaining();
        args, k := CollectMore(i, tokens, collected, reserved);
        if args != [] {
          RevPop(args);
        }
        assert line[..k] + [] == line[..k];
        if args != [] && args[|args| - 1] == "--" {
          mark := true;
          assert line[k..][1..] == line[k + 1..];
          args := args[..|args| - 1];
        }
        if MinNum(o) == 0 && MaxNum(o) > 0 && collected + k == 0 {
          FlagDefault(app, o, name);
          last := [FlagValue(app, o, name, []).value];
          AfterAfter(old(Now()), i, line[..k], k, last, 1);
          AddResult(i, last[0]);
        }
      } else {
        AfterNothing(Now(), i);
        assert line[..0] + [] == [];
        assert line[0..] == line;
      }
    }

    /** The part of _parse_arg after the required values. */
    method FinishOption(i: nat, name: string, rest: string, tokens: seq<string>, n: nat,
                        ghost st: State, ghost line: seq<string>, attached: seq<string>, first: seq<string>)
      returns (args: seq<string>, ok: bool)
      requires Valid() && i < |app.options| && IsState(app, st) && 1 + n <= |line|
      requires Reversed(tokens) == line[1 + n..]
      requires Now() == After(st, i, first + attached + line[1..1 + n], |first| + |attached| + n)
      modifies this
      ensures Valid()
      ensures var r := DecideRest(app, st, line, i, name, rest, attached, first, n);
              ok == r.Ok? &&
              (ok ==> InApp(app, r.value) && Now() == Apply(app, st, r.value) && Used(r.value) <= |line|
                      && Reversed(args) == Remaining(line, r.value))
    {
      hide RemainingRequired, TakeMore, FlagLast, MaxNum, MinNum, Apply, TakesMore, DecideRest, Remaining, Used;
      var o := app.options[i];
      ghost var before := first + attached + line[1..1 + n];
      var k, last;
      ghost var mark;
      args, k, mark, last := TakeOptional(i, name, tokens, |attached| + n);
      ghost var gained := line[1 + n..][..k] + last;
      AfterAfter(st, i, before, |before|, gained, k + |last|);
      assert Finds(app, st, line, i, name, attached, first, n, k, mark, last);
      RestIsOccurrence(app, st, line, i, name, rest, attached, first, n, k, mark, last);
      var padded := Padding(o, |attached| + n + k);
      if padded.Thrown? {
        return args, false;
      }
      OccurrenceEffect(app, st, line, i, rest, attached, first, n, k, mark, last, padded.value);
      if padded.value != [] {
        AfterAfter(st, i, before + gained, |before| + k + |last|, [[]], 0);
        AddPadding(i);
      } else {
        assert before + gained + [] == before + gained;
      }
      if rest != [] {
        RevPush(args, "-" + rest);
        args := args + ["-" + rest];
      } else {
        assert [] + Reversed(args) == Reversed(args);
      }
      ok := true;
    }

    /** What the option's own token gives it: a flag value, a value after `=`, or
        the letters after a short name. */
    method TakeHead(i: nat, name: string, value: string, rest: string)
      returns (attached: seq<string>, first: seq<string>, putBack: string, ok: bool)
      requires Valid() && i < |app.options|
      modifies this
      ensures Valid()
      ensures var o := app.options[i];
              && IsOpt(o) && attached == Attached(o, value, rest) && putBack == PutBack(o, value, rest)
              && FlagFirst(app, o, name, value) == (if ok then Ok(first) else Thrown)
      ensures ok ==> Now() == After(old(Now()), i, first + attached, |first| + |attached|)
    {
      hide FlagValue, MaxNum, After;
      var o := app.options[i];
      assert IsOpt(o);
      attached, first, putBack, ok := [], [], rest, true;
      AfterNothing(Now(), i);
      if MaxNum(o) == 0 {
        var flag := FlagValue(app, o, name, value);
        if flag.Thrown? {
          return attached, first, putBack, false;
        }
        AddResult(i, flag.value);
        first := [flag.value];
      } else if value != [] {
        AddResult(i, value);
        attached := [value];
      } else if rest != [] {
        AddResult(i, rest);
        attached := [rest];
        putBack := [];
      }
      assert first + [] == first && [] + attached == attached;
    }

    /** The part of _parse_arg for an option that was found; the last of the tokens names it. */
    method ParseOption(i: nat, tokens: seq<string>, name: string, value: string, rest: string)
      returns (args: seq<string>, ok: bool)
      requires Valid() && i < |app.options| && tokens != []
      modifies this
      ensures Valid()
      ensures var line, st := Reversed(tokens), old(Now());
              var r := DecideOption(app, st, line, i, name, value, rest);
              ok == r.Ok? &&
              (ok ==> InApp(app, r.value) && Now() == Apply(app, st, r.value) && Used(r.value) <= |line|
                      && Reversed(args) == Remaining(line, r.value))
    {
      hide DecideRest, FlagFirst, Apply, Used, Remaining, MaxNum, MinNum, After, Attached, PutBack;
      ghost var line, st := Reversed(tokens), Now();
      RevPop(tokens);
      args := tokens[..|tokens| - 1];
      var attached, first, putBack;
      attached, first, putBack, ok := TakeHead(i, name, value, rest);
      if !ok {
        return;
      }
      var min := MinNum(app.options[i]);
      var n;
      args, n := CollectRequired(i, args, if min > |attached| then min - |attached| else 0);
      if min > |attached| + n {
        return args, false;
      }
      assert line[1..][..n] == line[1..1 + n] && line[1..][n..] == line[1 + n..];
      AfterAfter(st, i, first + attached, |first| + |attached|, line[1..1 + n], n);
      args, ok := FinishOption(i, name, putBack, args, n, st, line, attached, first);
    }

    /** _parse_arg. */
    method ParseArg(tokens: seq<string>, kind: Classifier) returns (args: seq<string>, ok: bool)
      requires Valid() && tokens != [] && kind == Recognize(app, tokens[|tokens| - 1])
      requires kind == LONG || kind == SHORT || kind == WINDOWS_STYLE
      modifies this
      ensures Valid()
      ensures var line, st := Reversed(tokens), old(Now());
              var r := DecideArg(app, st, line, kind);
              ok == r.Ok? &&
              (ok ==> InApp(app, r.value) && Now() == Apply(app, st, r.value) && Used(r.value) <= |line|
                      && Reversed(args) == Remaining(line, r.value))
    {
      hide DecideOption;
      RevPop(tokens);
      var current := tokens[|tokens| - 1];
      var name, value, rest := [], [], [];
      var i;
      if kind == LONG {
        name, value := SplitLong(current).value.0, SplitLong(current).value.1;
        i := FindLong(app.options, name, 0);
      } else if kind == SHORT {
        name, rest := SplitShort(current).value.0, SplitShort(current).value.1;
        i := FindShort(app.options, name, 0);
      } else {
        name, value := SplitWindows(current).value.0, SplitWindows(current).value.1;
        i := FindEither(app.options, name);
      }
      if i == |app.options| {
        args := tokens[..|tokens| - 1];
        MoveToMissing(kind, current);
        assert [] + Reversed(args) == Reversed(args);
        return args, true;
      }
      args, ok := ParseOption(i, tokens, name, value, rest);
    }

    /** The search for a positional that takes the next token. */
    method FindTaker(text: string, requiredOnly: bool) returns (r: nat)
      requires Valid()
      ensures r == FindPositional(app, Now(), text, requiredOnly, 0)
    {
      r := 0;
      while r < |app.options|
        invariant r <= |app.options|
        invariant FindPositional(app, Now(), text, requiredOnly, r) == FindPositional(app, Now(), text, requiredOnly, 0)
      {
        var o := app.options[r];
        if o.pname != [] && (if requiredOnly then o.required && |results[r]| < ItemsMin(o)
                             else |results[r]| < ItemsMin(o) || o.allowExtra) {
          if !app.validatePositionals || app.accepts(r, text) {
            return;
          }
        }
        r := r + 1;
      }
    }

    /** _parse_positional. */
    method ParsePositional(tokens: seq<string>) returns (args: seq<string>, ok: bool)
      requires Valid() && tokens != []
      modifies this
      ensures Valid()
      ensures var line, st := Reversed(tokens), old(Now());
              var r := DecidePositional(app, st, line);
              ok == r.Ok? &&
              (ok ==> InApp(app, r.value) && Now() == Apply(app, st, r.value) && Used(r.value) <= |line|
                      && Reversed(args) == Remaining(line, r.value))
    {
      hide FindPositional, RemainingRequired, AllMissing, ItemsMin;
      RevPop(tokens);
      args := tokens;
      ghost var line, st := Reversed(tokens), Now();
      var positional := tokens[|tokens| - 1];
      var i := |app.options|;
      if app.positionalsAtEnd {
        var required := CountRemaining();
        if |args| <= required {
          i := FindTaker(positional, true);
        }
      }
      if i == |app.options| {
        i := FindTaker(positional, false);
      }
      if i < |app.options| {
        AddResult(i, positional);
        args := args[..|args| - 1];
        assert [] + Reversed(args) == Reversed(args);
        ApplyIsAfter(app, st, TookPositional(i, positional));
        return args, true;
      }
      if app.positionalsAtEnd {
        return args, false;
      }
      args := LeaveToMissing(tokens);
      ok := true;
    }

    /** A token no option takes, and all others after it for a prefix command. */
    method LeaveToMissing(tokens: seq<string>) returns (args: seq<string>)
      requires Valid() && tokens != []
      modifies `missing
      ensures Valid()
      ensures var line := Reversed(tokens);
              var t := TookMissing(AllMissing(if app.prefixCommand then line else line[..1]));
              && Now() == Apply(app, old(Now()), t) && Used(t) <= |line| && Reversed(args) == Remaining(line, t)
    {
      RevPop(tokens);
      ghost var line := Reversed(tokens);
      MoveToMissing(NONE, tokens[|tokens| - 1]);
      args := tokens[..|tokens| - 1];
      if app.prefixCommand {
        args := MoveAllToMissing(args);
        assert AllMissing(line) == [(NONE, line[0])] + AllMissing(line[1..]);
      } else {
        assert AllMissing(line[..1]) == [(NONE, line[0])];
      }
      assert [] + Reversed(args) == Reversed(args);
    }

    /** The loop of a prefix command. */
    method MoveAllToMissing(tokens: seq<string>) returns (args: seq<string>)
      requires Valid()
      modifies `missing
      ensures Valid() && args == []
      ensures Now() == old(Now()).(missing := old(missing) + AllMissing(Reversed(tokens)))
    {
      args := tokens;
      ghost var line := Reversed(tokens);
      while args != []
        invariant Valid() && |args| <= |tokens| && Reversed(args) == line[|tokens| - |args|..]
        invariant missing == old(missing) + AllMissing(line[..|tokens| - |args|])
        decreases |args|
      {
        RevPop(args);
        ghost var k := |tokens| - |args|;
        assert AllMissing(line[..k + 1]) == AllMissing(line[..k]) + [(NONE, line[k])];
        MoveToMissing(NONE, args[|args| - 1]);
        args := args[..|args| - 1];
      }
      assert line[..|tokens|] == line;
    }

    /** _parse_single. */
    method ParseSingle(tokens: seq<string>, positionalOnly: bool) returns (args: seq<string>, only: bool, ok: bool)
      requires Valid() && tokens != []
      modifies this
      ensures Valid()
      ensures var line, st := Reversed(tokens), old(Now());
              var r := Decide(app, st, line, positionalOnly);
              ok == r.Ok? && only == PositionalOnly(app, line[0], positionalOnly) &&
              (ok ==> InApp(app, r.value) && Now() == Apply(app, st, r.value) && Used(r.value) <= |line|
                      && Reversed(args) == Remaining(line, r.value))
    {
      hide DecideArg, DecidePositional, Recognize;
      RevPop(tokens);
      only := positionalOnly;
      var kind := if positionalOnly then NONE else Recognize(app, tokens[|tokens| - 1]);
      if kind == POSITIONAL_MARK {
        args := tokens[..|tokens| - 1];
        only := true;
        MoveToMissing(kind, "--");
        assert [] + Reversed(args) == Reversed(args);
        ok := true;
      } else if kind == NONE {
        args, ok := ParsePositional(tokens);
        if app.positionalsAtEnd {
          only := true;
        }
      } else {
        args, ok := ParseArg(tokens, kind);
      }
    }

    /** The loop of _parse: it ends on every command line, and in the state the
        turns of Run lead to, unless a turn throws. */
    method Parse(tokens: seq<string>) returns (ok: bool)
      requires Valid()
      modifies this
      ensures Valid()
      ensures var r := Run(app, old(Now()), Reversed(tokens), false);
              ok == r.Ok? && (ok ==> Now() == r.value.0)
    {
      hide Decide, Apply, Remaining, Used, PositionalOnly, Genuine, Spelled, Size;
      var args, positionalOnly := tokens, false;
      ghost var goal := Run(app, Now(), Reversed(tokens), false);
      while args != []
        invariant Valid()
        invariant goal.Ok? == Run(app, Now(), Reversed(args), positionalOnly).Ok?
        invariant goal.Ok? ==> goal.value.0 == Run(app, Now(), Reversed(args), positionalOnly).value.0
        decreases Size(Reversed(args))
      {
        ghost var st, line := Now(), Reversed(args);
        ghost var turn := Decide(app, st, line, positionalOnly);
        DecideAccounts(app, st, line, positionalOnly);
        args, positionalOnly, ok := ParseSingle(args, positionalOnly);
        if !ok {
          return;
        }
        TurnShrinks(app, line, turn.value);
      }
      ok := true;
    }
  }

  /** The occurrence of an option with `n` required and `k` optional values. */
  function Occurrence(line: seq<string>, i: nat, rest: string, attached: seq<string>, first: seq<string>,
                      n: nat, k: nat, mark: bool, last: seq<string>, padding: seq<string>): Taken
    requires 1 + n + k <= |line|
  {
    TookOption(i, line[0], rest, attached, line[1..1 + n + k], first, last, mark, padding)
  }

  lemma OccurrenceEffect(app: App, st: State, line: seq<string>, i: nat, rest: string, attached: seq<string>,
                         first: seq<string>, n: nat, k: nat, mark: bool, last: seq<string>, padding: seq<string>)
    requires IsState(app, st) && i < |app.options| && 1 + n + k + (if mark then 1 else 0) <= |line|
    ensures var t := Occurrence(line, i, rest, attached, first, n, k, mark, last, padding);
            var before := first + attached + line[1..1 + n];
            && InApp(app, t) && Used(t) <= |line|
            && Apply(app, st, t) == After(st, i, before + (line[1 + n..][..k] + last) + padding, |before| + k + |last|)
            && Remaining(line, t) ==
               (if rest != [] then ["-" + rest] else []) + line[1 + n..][k + (if mark then 1 else 0)..]
  {
    hide Apply, After;
    var t := Occurrence(line, i, rest, attached, first, n, k, mark, last, padding);
    OptionalSlices(line, n, k, mark);
    OptionAdds(st, line, t, n);
    ApplyIsAfter(app, st, t);
  }

  /** The optional part in terms of what the loop finds. */
  ghost predicate Finds(app: App, st: State, line: seq<string>, i: nat, name: string, attached: seq<string>,
                        first: seq<string>, n: nat, k: nat, mark: bool, last: seq<string>)
    requires IsApp(app) && IsState(app, st) && i < |app.options| && 1 + n <= |line|
  {
    var o, tail, collected := app.options[i], line[1 + n..], |attached| + n;
    var more := TakesMore(o, collected);
    var results := st.results[i := st.results[i] + (first + attached + line[1..1 + n])];
    && k == (if more then TakeMore(app, tail, i, o, collected, RemainingRequired(app, results, 0)) else 0)
    && k <= |tail| && mark == (more && k < |tail| && tail[k] == "--")
    && last == (if more then FlagLast(app, o, name, collected + k) else [])
  }

  lemma RestIsOccurrence(app: App, st: State, line: seq<string>, i: nat, name: string, rest: string,
                         attached: seq<string>, first: seq<string>, n: nat, k: nat, mark: bool, last: seq<string>)
    requires IsApp(app) && IsState(app, st) && i < |app.options| && 1 + n <= |line|
    requires Finds(app, st, line, i, name, attached, first, n, k, mark, last)
    ensures DecideRest(app, st, line, i, name, rest, attached, first, n) ==
            match Padding(app.options[i], |attached| + n + k)
            case Thrown => Thrown
            case Ok(padding) => Ok(Occurrence(line, i, rest, attached, first, n, k, mark, last, padding))
  {
    hide RemainingRequired, TakeMore, FlagLast, Padding, TakesMore;
    assert k < |line[1 + n..]| ==> line[1 + n..][k] == line[1 + n + k];
  }

  lemma OptionalSlices(line: seq<string>, n: nat, k: nat, mark: bool)
    requires 1 + n + k + (if mark then 1 else 0) <= |line|
    ensures line[1 + n..][..k] == line[1 + n..1 + n + k]
    ensures var m := if mark then 1 else 0; line[1 + n..][k + m..] == line[1 + n + k + m..]
    ensures k < |line[1 + n..]| ==> line[1 + n..][k] == line[1 + n + k]
  {
  }

  lemma FlagDefault(app: App, o: Opt, name: string)
    requires IsOpt(o)
    ensures FlagValue(app, o, name, []).Ok?
  {
  }
}
