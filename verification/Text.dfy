/** Character classes of the classic C locale, trimming and searching, as the
    standard library provides them to external/CLI/CLI11.hpp.  A failed search
    returns the length of the text where C++ returns npos. */
module Text {

  datatype Option<+T> = None | Some(value: T)

  predicate IsSpace(c: char) {
    c == ' ' || '\t' <= c <= '\r'
  }

  predicate IsPrint(c: char) {
    ' ' <= c <= '~'
  }

  predicate IsDigit(c: char) {
    '0' <= c <= '9'
  }

  predicate IsHex(c: char) {
    IsDigit(c) || 'A' <= c <= 'F' || 'a' <= c <= 'f'
  }

  /** Every character fits the one-byte `char` of the source. */
  predicate Octets(s: string) {
    forall i | 0 <= i < |s| :: s[i] as int < 256
  }

  function LTrim(s: string): (r: string)
    ensures r == [] || !IsSpace(r[0])
    ensures |r| <= |s| && r == s[|s| - |r|..]
  {
    if s != [] && IsSpace(s[0]) then LTrim(s[1..]) else s
  }

  function RTrim(s: string): (r: string)
    ensures r == [] || !IsSpace(r[|r| - 1])
    ensures |r| <= |s| && r == s[..|r|]
  {
    if s != [] && IsSpace(s[|s| - 1]) then RTrim(s[..|s| - 1]) else s
  }

  function Trim(s: string): (r: string)
    ensures |r| <= |s|
  {
    LTrim(RTrim(s))
  }

  /** The text has no white space to trim. */
  predicate Trimmed(s: string) {
    s == [] || (!IsSpace(s[0]) && !IsSpace(s[|s| - 1]))
  }

  lemma TrimIsTrimmed(s: string)
    ensures Trimmed(Trim(s))
    ensures Trimmed(s) ==> Trim(s) == s
  {
    var r := RTrim(s);
    var t := LTrim(r);
    if t != [] {
      assert t[|t| - 1] == r[|r| - 1];
    }
  }

  /** Position of the first character of `s` at or after `i` that is in `cs`. */
  function FindAny(s: string, cs: set<char>, i: nat): (r: nat)
    ensures r <= |s|
    ensures r < |s| ==> i <= r && s[r] in cs
    ensures forall k | i <= k < r :: s[k] !in cs
    ensures i <= |s| ==> i <= r
    decreases |s| - i
  {
    if i >= |s| then |s| else if s[i] in cs then i else FindAny(s, cs, i + 1)
  }

  function Find(s: string, c: char, i: nat): (r: nat)
    ensures r <= |s|
    ensures r < |s| ==> i <= r && s[r] == c
    ensures forall k | i <= k < r :: s[k] != c
    ensures i <= |s| ==> i <= r
  {
    FindAny(s, {c}, i)
  }

  function Reversed<T>(s: seq<T>): (r: seq<T>)
    ensures |r| == |s| && forall k | 0 <= k < |s| :: r[k] == s[|s| - 1 - k]
  {
    seq(|s|, k requires 0 <= k < |s| => s[|s| - 1 - k])
  }

  lemma Assoc<T>(a: seq<T>, b: seq<T>, c: seq<T>)
    ensures (a + b) + c == a + (b + c)
  {
  }
}
