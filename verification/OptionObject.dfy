/** The Option class of external/CLI/CLI11.hpp as an object: its results, cached
    reduction and state are updated in place. */
module OptionObject {
  import opened ArgParser
  import opened OptionState

  /** The loop of _validate. */
  method Validate(s: Setup, text: string, index: int) returns (r: string, ok: bool)
    ensures (r, ok) == ValidateOne(s, text, index)
  {
    r, ok := text, true;
    if text == [] && s.expectedMin == 0 {
      return;
    }
    var i := 0;
    assert s.validators[0..] == s.validators;
    while i < |s.validators|
      invariant i <= |s.validators| && ok
      invariant RunValidators(s.validators[i..], r, index) == RunValidators(s.validators, text, index)
    {
      var v := s.validators[i];
      assert s.validators[i..][0] == v && s.validators[i..][1..] == s.validators[i + 1..];
      if v.at == -1 || v.at == index {
        var result := v.run(r);
        r, ok := result.0, result.1;
        if !ok {
          break;
        }
      }
      i := i + 1;
    }
  }

  /** The rest of the loop of _validate_results, with what is done before it. */
  function Joined(done: seq<string>, r: (seq<string>, bool)): (seq<string>, bool) {
    (done + r.0, r.1)
  }

  lemma ValidateFromAt(s: Setup, res: seq<string>, j: nat, done: seq<string>, index: int)
    requires j < |res|
    ensures var skip := s.typeMax > 1 && IsSeparator(res[j]) && s.typeMax != s.typeMin && index >= 0;
            var (text, ok) := ValidateOne(s, res[j], WithinType(s, index));
            Joined(done, ValidateFrom(s, res[j..], index)) ==
            if skip then Joined(done + [res[j]], ValidateFrom(s, res[j + 1..], 0))
            else if ok then Joined(done + [text], ValidateFrom(s, res[j + 1..], index + 1))
            else (done + [text] + res[j + 1..], false)
  {
    hide ValidateOne, IsSeparator, WithinType;
    var rest := res[j + 1..];
    assert res[j..][0] == res[j] && res[j..][1..] == rest;
    var text := ValidateOne(s, res[j], WithinType(s, index)).0;
    assert done + ([res[j]] + ValidateFrom(s, rest, 0).0) == done + [res[j]] + ValidateFrom(s, rest, 0).0;
    assert done + ([text] + ValidateFrom(s, rest, index + 1).0) == done + [text] + ValidateFrom(s, rest, index + 1).0;
    assert done + ([text] + rest) == done + [text] + rest;
  }

  /** _validate_results: rewrites the list in place, up to a failure. */
  method ValidateResults(s: Setup, policy: Policy, expectedMax: nat, given: seq<string>) returns (res: seq<string>, ok: bool)
    ensures (res, ok) == ValidateAll(s, policy, expectedMax, given)
  {
    hide ValidateOne, IsSeparator, WithinType, ValidateFrom, StartIndex;
    res, ok := given, true;
    if s.validators == [] {
      return;
    }
    var index := StartIndex(s, policy, expectedMax, |given|);
    ghost var goal := ValidateFrom(s, given, index);
    assert given[0..] == given && res[..0] == [];
    assert [] + goal.0 == goal.0;
    for j := 0 to |given|
      invariant |res| == |given| && res[j..] == given[j..]
      invariant Joined(res[..j], ValidateFrom(s, given[j..], index)) == goal
    {
      ValidateFromAt(s, given, j, res[..j], index);
      assert res[j] == res[j..][0] == given[j];
      assert res[j + 1..] == res[j..][1..] == given[j + 1..];
      if s.typeMax > 1 && IsSeparator(res[j]) && s.typeMax != s.typeMin && index >= 0 {
        index := 0;
        assert res[..j + 1] == res[..j] + [res[j]];
      } else {
        var text;
        text, ok := Validate(s, res[j], WithinType(s, index));
        ghost var before := res;
        res := res[j := text];
        assert res[..j + 1] == before[..j] + [text] && res[j + 1..] == before[j + 1..];
        if !ok {
          assert res == res[..j + 1] + res[j + 1..];
          return;
        }
        index := index + 1;
      }
    }
    ValidateNothing(s, index);
    assert given[|given|..] == [] && res[..|given|] == res && res + [] == res;
  }

  lemma ValidateNothing(s: Setup, index: int)
    ensures ValidateFrom(s, [], index) == ([], true)
  {
  }

  lemma {:induction false} AddResultsForgetsPhase(s: Setup, o: OptionState.Option, texts: seq<string>)
    ensures AddResults(s, o.(phase := Parsing), texts) == AddResults(s, o, texts)
    decreases |texts|
  {
    if texts != [] {
      AddResultsForgetsPhase(s, o.(results := o.results + Added(s, texts[0])), texts[1..]);
    }
  }

  class OptionResults {
    const s: Setup
    var results: seq<string>
    var proc: seq<string>
    var phase: Phase
    var policy: Policy
    var expectedMax: nat

    ghost function Now(): OptionState.Option
      reads this
    {
      OptionState.Option(results, proc, phase, policy, expectedMax)
    }

    constructor (s: Setup, policy: Policy, expectedMax: nat)
      ensures this.s == s && Now() == OptionState.Option([], [], Parsing, policy, expectedMax)
    {
      this.s := s;
      results, proc, phase := [], [], Parsing;
      this.policy, this.expectedMax := policy, expectedMax;
    }

    /** add_result on a list. */
    method AddResult(texts: seq<string>)
      modifies `results, `phase
      ensures Now() == AddResults(s, old(Now()), texts)
    {
      hide Added;
      AddResultsForgetsPhase(s, Now(), texts);
      phase := Parsing;
      assert texts[0..] == texts;
      for i := 0 to |texts|
        invariant phase == Parsing
        invariant AddResults(s, Now(), texts[i..]) == AddResults(s, old(Now()), texts)
      {
        assert texts[i..][0] == texts[i] && texts[i..][1..] == texts[i + 1..];
        results := results + Added(s, texts[i]);
      }
    }

    method Clear()
      modifies `results, `phase
      ensures Now() == OptionState.Clear(old(Now()))
    {
      results := [];
      phase := Parsing;
    }

    method MultiOptionPolicy(value: Policy)
      modifies `policy, `expectedMax, `phase
      ensures Now() == SetPolicy(s, old(Now()), value)
    {
      if value != policy {
        if policy == Throw && expectedMax == MAX_VECTOR && s.expectedMin > 1 {
          expectedMax := s.expectedMin;
        }
        policy := value;
        phase := Parsing;
      }
    }

    /** run_callback: the list the callback gets, or Thrown. */
    method RunCallback() returns (r: Result<seq<string>>)
      modifies this
      ensures (Now(), r) == OptionState.RunCallback(s, old(Now()))
    {
      hide Reduce, ValidateAll, Added;
      if s.forced && results == [] {
        AddResult([s.defaultStr]);
      }
      if phase == Parsing {
        var ok;
        results, ok := ValidateResults(s, policy, expectedMax, results);
        if !ok {
          return Thrown;
        }
        phase := Validated;
      }
      if phase == Validated {
        proc := [];
        var out := Reduce(s, policy, expectedMax, results, |results|);
        if out.Thrown? {
          return Thrown;
        }
        proc := out.value;
        phase := Reduced;
      }
      phase := CallbackRun;
      r := Ok(if proc == [] then results else proc);
    }

    /** reduced_results. */
    method GetReduced() returns (r: Result<seq<string>>)
      ensures r == ReducedResults(s, Now())
    {
      hide Reduce, ValidateAll;
      var res := if proc == [] then results else proc;
      if phase == Parsing || phase == Validated {
        if phase == Parsing {
          var ok;
          res, ok := ValidateResults(s, policy, expectedMax, results);
          if !ok {
            return Thrown;
          }
        }
        if res != [] {
          var extra := Reduce(s, policy, expectedMax, res, |results|);
          if extra.Thrown? {
            return Thrown;
          }
          if extra.value != [] {
            res := extra.value;
          }
        }
      }
      r := Ok(res);
    }
  }
}
