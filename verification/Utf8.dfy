/** append_codepoint of external/CLI/CLI11.hpp and, to judge it by, a decoder
    written from the byte syntax of section 4 of RFC 3629. */
module Utf8 {
  import opened Text

  predicate IsSurrogate(code: nat) {
    0xD800 <= code <= 0xDFFF
  }

  /** The Unicode scalar values. */
  predicate IsScalar(code: nat) {
    code < 0x110000 && !IsSurrogate(code)
  }

  /** A continuation byte carrying the low six bits of `n`. */
  function Continuation(n: nat): char {
    (0x80 + n % 64) as char
  }

  /** The bytes append_codepoint adds; None where it throws.  A code above
      0x10FFFF adds nothing. */
  function AppendCodepoint(code: nat): Option<string> {
    if code < 0x80 then
      Some([code as char])
    else if code < 0x800 then
      Some([(0xC0 + code / 64) as char, Continuation(code)])
    else if code < 0x10000 then
      if IsSurrogate(code) then None
      else Some([(0xE0 + code / 4096) as char, Continuation(code / 64), Continuation(code)])
    else if code < 0x110000 then
      Some([(0xF0 + code / 0x40000) as char, Continuation(code / 4096), Continuation(code / 64), Continuation(code)])
    else
      Some([])
  }

  /** The shifts, masks and ors of the source compute the sums above. */
  lemma BitFields(c: bv32)
    ensures 0x80 | (c & 0x3F) == 0x80 + c % 64
    ensures 0x80 | ((c >> 6) & 0x3F) == 0x80 + (c / 64) % 64
    ensures 0x80 | ((c >> 12) & 0x3F) == 0x80 + (c / 4096) % 64
    ensures c < 0x800 ==> 0xC0 | (c >> 6) == 0xC0 + c / 64
    ensures c < 0x10000 ==> 0xE0 | (c >> 12) == 0xE0 + c / 4096
    ensures c < 0x110000 ==> 0xF0 | (c >> 18) == 0xF0 + c / 0x40000
  {
  }

  function Encode(code: nat): string
    requires IsScalar(code)
  {
    AppendCodepoint(code).value
  }

  predicate InRange(s: string, i: nat, lo: int, hi: int) {
    i < |s| && lo <= s[i] as int <= hi
  }

  predicate IsTail(s: string, i: nat) {
    InRange(s, i, 0x80, 0xBF)
  }

  function Low(s: string, i: nat): int
    requires i < |s|
  {
    s[i] as int - 0x80
  }

  /** Section 4 of RFC 3629: the first character of `s` and its length in bytes. */
  function DecodeOne(s: string): (r: Option<(nat, nat)>)
    ensures r.Some? ==> 1 <= r.value.1 <= |s|
  {
    if InRange(s, 0, 0, 0x7F) then
      Some((s[0] as int, 1))
    else if InRange(s, 0, 0xC2, 0xDF) && IsTail(s, 1) then
      Some(((s[0] as int - 0xC0) * 64 + Low(s, 1), 2))
    else if (|| (InRange(s, 0, 0xE0, 0xE0) && InRange(s, 1, 0xA0, 0xBF))
             || (InRange(s, 0, 0xE1, 0xEC) && IsTail(s, 1))
             || (InRange(s, 0, 0xED, 0xED) && InRange(s, 1, 0x80, 0x9F))
             || (InRange(s, 0, 0xEE, 0xEF) && IsTail(s, 1))) && IsTail(s, 2) then
      Some(((s[0] as int - 0xE0) * 4096 + Low(s, 1) * 64 + Low(s, 2), 3))
    else if (|| (InRange(s, 0, 0xF0, 0xF0) && InRange(s, 1, 0x90, 0xBF))
             || (InRange(s, 0, 0xF1, 0xF3) && IsTail(s, 1))
             || (InRange(s, 0, 0xF4, 0xF4) && InRange(s, 1, 0x80, 0x8F))) && IsTail(s, 2) && IsTail(s, 3) then
      Some(((s[0] as int - 0xF0) * 0x40000 + Low(s, 1) * 4096 + Low(s, 2) * 64 + Low(s, 3), 4))
    else
      None
  }

  function Decode(s: string): Option<seq<nat>> {
    if s == [] then Some([])
    else
      match DecodeOne(s)
      case None => None
      case Some((code, n)) =>
        match Decode(s[n..])
        case None => None
        case Some(codes) => Some([code] + codes)
  }

  function EncodeAll(codes: seq<nat>): string
    requires forall i | 0 <= i < |codes| :: IsScalar(codes[i])
  {
    if codes == [] then [] else Encode(codes[0]) + EncodeAll(codes[1..])
  }

  lemma TwoBytes(code: nat, t: string)
    requires 0x80 <= code < 0x800
    ensures DecodeOne(Encode(code) + t) == Some((code, 2))
  {
    var s := Encode(code) + t;
    assert s[0] == (0xC0 + code / 64) as char && s[1] == Continuation(code);
  }

  lemma ThreeBytes(code: nat, t: string)
    requires 0x800 <= code < 0x10000 && IsScalar(code)
    ensures DecodeOne(Encode(code) + t) == Some((code, 3))
  {
    var s := Encode(code) + t;
    assert s[0] == (0xE0 + code / 4096) as char && s[1] == Continuation(code / 64) && s[2] == Continuation(code);
    assert code == (code / 4096) * 4096 + (code / 64 % 64) * 64 + code % 64;
  }

  lemma FourDigits(code: nat)
    requires 0x10000 <= code < 0x110000
    ensures var lead, second := code / 0x40000, code / 4096 % 64;
            && code == lead * 0x40000 + second * 4096 + (code / 64 % 64) * 64 + code % 64
            && lead <= 4 && (lead == 0 ==> second >= 16) && (lead == 4 ==> second < 16)
  {
  }

  lemma FourBytes(code: nat, t: string)
    requires 0x10000 <= code < 0x110000
    ensures DecodeOne(Encode(code) + t) == Some((code, 4))
  {
    var s := Encode(code) + t;
    FourDigits(code);
    assert s[0] == (0xF0 + code / 0x40000) as char && s[1] == Continuation(code / 4096);
    assert s[2] == Continuation(code / 64) && s[3] == Continuation(code);
  }

  /** The encoding of a scalar value is what the RFC's decoder reads back, so it
      is well-formed and has no shorter form. */
  lemma DecodeOneEncode(code: nat, t: string)
    requires IsScalar(code)
    ensures DecodeOne(Encode(code) + t) == Some((code, |Encode(code)|))
  {
    if code < 0x80 {
      assert (Encode(code) + t)[0] == code as char;
    } else {
      hide DecodeOne;
      if code < 0x800 {
        TwoBytes(code, t);
      } else if code < 0x10000 {
        ThreeBytes(code, t);
      } else {
        FourBytes(code, t);
      }
    }
  }

  lemma {:induction false} DecodeEncodeAll(codes: seq<nat>)
    requires forall i | 0 <= i < |codes| :: IsScalar(codes[i])
    ensures Decode(EncodeAll(codes)) == Some(codes)
  {
    if codes != [] {
      var e := Encode(codes[0]);
      var t := EncodeAll(codes[1..]);
      DecodeOneEncode(codes[0], t);
      DecodeEncodeAll(codes[1..]);
      assert (e + t)[|e|..] == t;
      assert [codes[0]] + codes[1..] == codes;
    }
  }
}
