/** AsNumberWithUnit and the size units of AsSizeValue in external/CLI/CLI11.hpp.
    The conversions between numbers and text are parameters. */
module Units {
  import opened Text
  import opened Arithmetic
  import opened ConfigReader

  predicate IsAlpha(c: char) {
    'a' <= c <= 'z' || 'A' <= c <= 'Z'
  }

  datatype Settings = Settings(caseInsensitive: bool, unitRequired: bool)

  /** The source either rewrites the text or throws. */
  datatype Outcome = Rewritten(text: string) | Rejected

  /** Where the unit starts: the letters at the end of the text. */
  function UnitStart(s: string): (r: nat)
    ensures r <= |s|
    ensures forall k | r <= k < |s| :: IsAlpha(s[k])
    ensures r > 0 ==> !IsAlpha(s[r - 1])
  {
    if s != [] && IsAlpha(s[|s| - 1]) then UnitStart(s[..|s| - 1]) else |s|
  }

  lemma {:induction false} UnitStartUnique(s: string, r: nat)
    requires r <= |s| && (forall k | r <= k < |s| :: IsAlpha(s[k])) && (r > 0 ==> !IsAlpha(s[r - 1]))
    ensures UnitStart(s) == r
  {
  }

  function UnitOf(text: string, opts: Settings): string {
    var s := RTrim(text);
    var unit := s[UnitStart(s)..];
    if opts.caseInsensitive then ToLower(unit) else unit
  }

  function NumberOf(text: string): string {
    var s := RTrim(text);
    Trim(s[..UnitStart(s)])
  }

  /** The number a text stands for: the number times the factor of its unit, a
      missing number or unit counting as one; None if there is no such number or it
      is out of range. */
  function Meant(text: string, mapping: map<string, int>, opts: Settings, t: IntType, parse: string -> Option<int>): Option<int> {
    var unit, number := UnitOf(text, opts), NumberOf(text);
    if RTrim(text) == [] || (unit == [] && opts.unitRequired) then None
    else if unit == [] then parse(number)
    else if unit !in mapping then None
    else if number == [] then Some(mapping[unit])
    else if parse(number).None? || !Fits(t, parse(number).value * mapping[unit]) then None
    else Some(parse(number).value * mapping[unit])
  }

  /** The transform of AsNumberWithUnit: it accepts exactly the texts that stand
      for a number in range, and writes that number unless there is no unit. */
  method NumberWithUnit(text: string, mapping: map<string, int>, opts: Settings, t: IntType,
                        parse: string -> Option<int>, show: int -> string) returns (r: Outcome)
    requires IsIntType(t)
    requires forall u | u in mapping :: Fits(t, mapping[u])
    requires forall s: string :: parse(s).Some? ==> Fits(t, parse(s).value)
    ensures r.Rewritten? <==> Meant(text, mapping, opts, t, parse).Some?
    ensures r.Rewritten? ==>
              r.text == if UnitOf(text, opts) == [] then NumberOf(text)
                        else show(Meant(text, mapping, opts, t, parse).value)
  {
    hide UnitOf, NumberOf, RTrim, Fits;
    if RTrim(text) == [] {
      return Rejected;
    }
    var unit, input := SplitUnit(text, opts);
    if opts.unitRequired && unit == [] {
      return Rejected;
    }
    if unit == [] {
      return if parse(input).None? then Rejected else Rewritten(input);
    }
    if unit !in mapping {
      return Rejected;
    }
    var num := mapping[unit];
    if input != [] {
      var parsed := parse(input);
      if parsed.None? {
        return Rejected;
      }
      var ok, product := CheckedMultiply(t, parsed.value, mapping[unit]);
      if !ok {
        return Rejected;
      }
      num := product;
    }
    r := Rewritten(show(num));
  }

  /** The loop that finds the split between number and unit. */
  method SplitUnit(text: string, opts: Settings) returns (unit: string, number: string)
    ensures unit == UnitOf(text, opts) && number == NumberOf(text)
  {
    var input := RTrim(text);
    var begin := |input|;
    while begin > 0 && IsAlpha(input[begin - 1])
      invariant 0 <= begin <= |input| && forall k | begin <= k < |input| :: IsAlpha(input[k])
    {
      begin := begin - 1;
    }
    UnitStartUnique(input, begin);
    unit := input[begin..];
    number := Trim(input[..begin]);
    if opts.caseInsensitive {
      unit := ToLower(unit);
    }
  }

  // ---------------------------------------------------------------- size units

  const UINT64: nat := 0x1_0000_0000_0000_0000
  const PREFIXES: seq<string> := ["k", "m", "g", "t", "p", "e"]

  function Power(b: nat, n: nat): nat {
    if n == 0 then 1 else b * Power(b, n - 1)
  }

  /** The largest factor, 1024 to the sixth, is far from 2^64. */
  lemma PowerBound(b: nat, n: nat)
    requires b <= 1024 && n <= 6
    ensures Power(b, n) <= 0x1000_0000_0000_0000
  {
    if n > 0 {
      PowerMonotone(b, 1024, n);
      PowerGrows(1024, n, 6);
    }
    assert Power(1024, 2) == 0x10_0000;
    assert Power(1024, 4) == 0x100_0000_0000;
    assert Power(1024, 6) == 0x1000_0000_0000_0000;
  }

  lemma {:induction false} PowerMonotone(b: nat, c: nat, n: nat)
    requires b <= c
    ensures Power(b, n) <= Power(c, n)
  {
    if n > 0 {
      PowerMonotone(b, c, n - 1);
      MulLe(b, Power(b, n - 1), Power(c, n - 1));
      MulLe(Power(c, n - 1), b, c);
    }
  }

  lemma {:induction false} PowerGrows(b: nat, m: nat, n: nat)
    requires b >= 1 && m <= n
    ensures 1 <= Power(b, m) <= Power(b, n)
    decreases n
  {
    if m > 0 {
      PowerGrows(b, 0, m - 1);
      MulLe(b, 1, Power(b, m - 1));
    }
    if m < n {
      PowerGrows(b, m, n - 1);
      MulLe(Power(b, n - 1), 1, b);
    }
  }

  /** The unit table that init_mapping is meant to build, without wrap-around. */
  predicate HasUnits(m: map<string, int>, base: nat, n: nat)
    requires n <= |PREFIXES|
  {
    && "b" in m && m["b"] == 1
    && forall i | 0 <= i < n ::
         var p := PREFIXES[i];
         && p in m && p + "b" in m && p + "i" in m && p + "ib" in m
         && m[p] == m[p + "b"] == Power(base, i + 1)
         && m[p + "i"] == m[p + "ib"] == Power(1024, i + 1)
  }

  function Prefix(i: nat): (p: string)
    requires i < |PREFIXES|
    ensures |p| == 1 && p[0] != 'b'
  {
    PREFIXES[i]
  }

  lemma PrefixesDiffer(i: nat, j: nat)
    requires i < j < |PREFIXES|
    ensures PREFIXES[i][0] != PREFIXES[j][0]
  {
    assert PREFIXES[0] == "k" && PREFIXES[1] == "m" && PREFIXES[2] == "g";
    assert PREFIXES[3] == "t" && PREFIXES[4] == "p" && PREFIXES[5] == "e";
  }

  /** The four names of one prefix. */
  function AddUnits(m: map<string, int>, p: string, k: int, ki: int): map<string, int> {
    m[p := k][p + "b" := k][p + "i" := ki][p + "ib" := ki]
  }

  lemma AddUnitsKeeps(m: map<string, int>, p: string, k: int, ki: int, key: string)
    requires p != [] && key != [] && key[0] != p[0] && key in m
    ensures key in AddUnits(m, p, k, ki) && AddUnits(m, p, k, ki)[key] == m[key]
  {
    assert (p + "b")[0] == p[0] && (p + "i")[0] == p[0] && (p + "ib")[0] == p[0];
  }

  lemma AddUnitsAdds(m: map<string, int>, p: string, k: int, ki: int)
    ensures var r := AddUnits(m, p, k, ki);
            && p in r && p + "b" in r && p + "i" in r && p + "ib" in r
            && r[p] == r[p + "b"] == k && r[p + "i"] == r[p + "ib"] == ki
  {
    assert |p| != |p + "b"| && |p| != |p + "i"| && |p| != |p + "ib"|;
    assert |p + "b"| != |p + "ib"| && |p + "i"| != |p + "ib"|;
    assert (p + "b")[|p|] != (p + "i")[|p|];
  }

  lemma AddUnitsExtends(m: map<string, int>, base: nat, n: nat, k: int, ki: int)
    requires n < |PREFIXES| && HasUnits(m, base, n) && k == Power(base, n + 1) && ki == Power(1024, n + 1)
    ensures HasUnits(AddUnits(m, Prefix(n), k, ki), base, n + 1)
  {
    hide AddUnits, Power;
    var p, r := Prefix(n), AddUnits(m, Prefix(n), k, ki);
    AddUnitsKeeps(m, p, k, ki, "b");
    AddUnitsAdds(m, p, k, ki);
    forall i | 0 <= i < n
      ensures var q := PREFIXES[i];
              && q in r && q + "b" in r && q + "i" in r && q + "ib" in r
              && r[q] == r[q + "b"] == Power(base, i + 1)
              && r[q + "i"] == r[q + "ib"] == Power(1024, i + 1)
    {
      var q := Prefix(i);
      PrefixesDiffer(i, n);
      assert (q + "b")[0] == q[0] && (q + "i")[0] == q[0] && (q + "ib")[0] == q[0];
      AddUnitsKeeps(m, p, k, ki, q);
      AddUnitsKeeps(m, p, k, ki, q + "b");
      AddUnitsKeeps(m, p, k, ki, q + "i");
      AddUnitsKeeps(m, p, k, ki, q + "ib");
    }
  }

  function Mul64(a: nat, b: nat): nat {
    a * b % UINT64
  }

  lemma PowerStep(b: nat, n: nat)
    requires b <= 1024 && n < 6
    ensures Mul64(Power(b, n), b) == Power(b, n + 1)
  {
    PowerBound(b, n + 1);
    assert Power(b, n) * b == b * Power(b, n);
  }

  /** init_mapping, in 64-bit unsigned arithmetic: every unit gets its exact power. */
  method InitMapping(kbIs1000: bool) returns (m: map<string, int>)
    ensures HasUnits(m, if kbIs1000 then 1000 else 1024, |PREFIXES|)
  {
    hide AddUnits, HasUnits;
    var base := if kbIs1000 then 1000 else 1024;
    var k, ki := 1, 1;
    m := map["b" := 1];
    OnlyBytes(base);
    for i := 0 to |PREFIXES|
      invariant k == Power(base, i) && ki == Power(1024, i)
      invariant HasUnits(m, base, i)
    {
      PowerStep(base, i);
      PowerStep(1024, i);
      k := Mul64(k, base);
      ki := Mul64(ki, 1024);
      AddUnitsExtends(m, base, i, k, ki);
      m := AddUnits(m, Prefix(i), k, ki);
    }
  }

  lemma OnlyBytes(base: nat)
    ensures HasUnits(map["b" := 1], base, 0)
  {
  }
}
