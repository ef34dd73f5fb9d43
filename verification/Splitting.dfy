/** split_up of external/CLI/CLI11.hpp. */
module Splitting {
  import opened Text
  import opened Brackets

  const NUL: char := 0 as char

  /** The lambda `find_ws`: white space if the delimiter is NUL. */
  predicate IsDelimiter(c: char, delimiter: char) {
    if delimiter == NUL then IsSpace(c) else c == delimiter
  }

  function FindDelimiter(s: string, delimiter: char, i: nat): (r: nat)
    ensures r <= |s| && (i <= |s| ==> i <= r)
    ensures r < |s| ==> IsDelimiter(s[r], delimiter)
    ensures forall k | i <= k < r :: !IsDelimiter(s[k], delimiter)
    decreases |s| - i
  {
    if i >= |s| then |s| else if IsDelimiter(s[i], delimiter) then i else FindDelimiter(s, delimiter, i + 1)
  }

  /** The first piece of a non-empty text and what is left after its delimiter.
      The character after a closing quote or bracket is dropped unseen. */
  function FirstPiece(s: string, delimiter: char): (r: (string, string))
    requires s != []
    ensures |r.1| < |s|
  {
    if IsQuote(s[0]) || IsOpener(s[0]) then
      var end := CloseSequence(s, 0, Match(s[0]));
      if end >= |s| then (s, [])
      else (s[..end + 1], if end + 2 < |s| then s[end + 2..] else [])
    else
      var end := FindDelimiter(s, delimiter, 0);
      if end < |s| then (s[..end], s[end + 1..]) else (s, [])
  }

  function Pieces(s: string, delimiter: char): seq<string>
    decreases |s|
  {
    if s == [] then []
    else
      var (piece, rest) := FirstPiece(s, delimiter);
      [piece] + Pieces(Trim(rest), delimiter)
  }

  function SplitUp(s: string, delimiter: char): seq<string> {
    Pieces(Trim(s), delimiter)
  }

  lemma PiecesStep(output: seq<string>, s: string, delimiter: char, piece: string, rest: string)
    requires s != [] && FirstPiece(s, delimiter) == (piece, rest)
    ensures output + Pieces(s, delimiter) == output + [piece] + Pieces(Trim(rest), delimiter)
  {
    assert Pieces(s, delimiter) == [piece] + Pieces(Trim(rest), delimiter);
  }

  /** The loop of split_up; it terminates on every text. */
  method SplitUpLoop(text: string, delimiter: char) returns (output: seq<string>)
    ensures output == SplitUp(text, delimiter)
  {
    hide FirstPiece, Trim;
    var str := Trim(text);
    output := [];
    while str != []
      invariant output + Pieces(str, delimiter) == SplitUp(text, delimiter)
      decreases |str|
    {
      var (piece, rest) := FirstPiece(str, delimiter);
      PiecesStep(output, str, delimiter, piece, rest);
      output := output + [piece];
      str := Trim(rest);
    }
  }

  // ---------------------------------------------------------------- atoms

  predicate IsWordChar(c: char) {
    IsDigit(c) || 'a' <= c <= 'z' || 'A' <= c <= 'Z' || c == '.' || c == '-' || c == '+'
  }

  /** A bare word: a number or one of the reserved values. */
  predicate IsWord(p: string) {
    p != [] && forall i | 0 <= i < |p| :: IsWordChar(p[i])
  }

  function Inner(p: string): string
    requires |p| >= 2
  {
    p[1..|p| - 1]
  }

  /** One double-quoted string or one single-quoted literal. */
  predicate IsQuotedText(p: string) {
    |p| >= 2 && p[|p| - 1] == p[0] &&
    ((p[0] == '"' && IsStringText(Inner(p))) || (p[0] == '\'' && '\'' !in Inner(p)))
  }

  /** What the printer writes for one value. */
  predicate IsAtom(p: string) {
    IsWord(p) || IsQuotedText(p)
  }

  lemma QuotedParts(p: string, t: string)
    requires |p| >= 2 && p[|p| - 1] == p[0]
    ensures p == [p[0]] + (Inner(p) + [p[0]])
    ensures At(p + t, 0, p) && At(p + t, 1, Inner(p) + [p[0]])
  {
    var s := p + t;
    assert s[0..|p|] == p;
    AtHead(s, 0, p[0], Inner(p) + [p[0]]);
  }

  /** A quoted text ends at its own last character, whatever follows. */
  lemma QuotedCloses(p: string, t: string)
    requires IsQuotedText(p)
    ensures CloseSequence(p + t, 0, p[0]) == |p| - 1
  {
    QuotedParts(p, t);
    if p[0] == '"' {
      StringEndAt(p + t, 1, Inner(p));
    } else {
      FindAt(p + t, 1, p[0], Inner(p));
    }
  }

  /** Atoms separated by a comma and a blank. */
  function Joined(ps: seq<string>): string {
    if ps == [] then [] else if |ps| == 1 then ps[0] else ps[0] + ", " + Joined(ps[1..])
  }

  lemma {:induction false} JoinedTrimmed(ps: seq<string>)
    requires ps != [] && forall i | 0 <= i < |ps| :: IsAtom(ps[i])
    ensures Joined(ps) != [] && Trimmed(Joined(ps))
  {
    if |ps| > 1 {
      JoinedTrimmed(ps[1..]);
      var j := Joined(ps);
      assert j[0] == ps[0][0];
      assert j[|j| - 1] == Joined(ps[1..])[|Joined(ps[1..])| - 1];
    }
  }

  lemma TrimBlank(j: string)
    requires j != [] && Trimmed(j)
    ensures Trim(" " + j) == j
  {
    var s := " " + j;
    assert RTrim(s) == s;
    assert s[1..] == j;
    assert LTrim(j) == j;
  }

  lemma FirstPieceWord(p: string, t: string)
    requires IsWord(p) && (t == [] || t[0] == ',')
    ensures FirstPiece(p + t, ',') == (p, if t == [] then [] else t[1..])
  {
    var s := p + t;
    assert forall k | 0 <= k < |p| :: s[k] == p[k];
    if t == [] {
      assert s == p && FindDelimiter(s, ',', 0) == |s|;
    } else {
      assert s[|p|] == ',' && IsDelimiter(s[|p|], ',');
      assert FindDelimiter(s, ',', 0) == |p|;
      assert s[..|p|] == p && s[|p| + 1..] == t[1..];
    }
  }

  lemma FirstPieceQuoted(p: string, t: string, delimiter: char)
    requires IsQuotedText(p)
    ensures FirstPiece(p + t, delimiter) == (p, if t == [] then [] else t[1..])
  {
    var s := p + t;
    QuotedCloses(p, t);
    assert s[0] == p[0] && Match(s[0]) == p[0];
    assert s[..|p|] == p;
    if t != [] {
      assert s[|p| + 1..] == t[1..];
    }
  }

  /** The first piece of atoms joined with commas is the first atom. */
  lemma FirstPieceAtom(p: string, t: string)
    requires IsAtom(p) && (t == [] || t[0] == ',')
    ensures FirstPiece(p + t, ',') == (p, if t == [] then [] else t[1..])
  {
    if IsWord(p) {
      FirstPieceWord(p, t);
    } else {
      FirstPieceQuoted(p, t, ',');
    }
  }

  lemma SplitStep(s: string, p: string, rest: string)
    requires s != [] && Trimmed(s) && FirstPiece(s, ',') == (p, rest)
    ensures SplitUp(s, ',') == [p] + SplitUp(rest, ',')
  {
    TrimIsTrimmed(s);
    PiecesStep([], s, ',', p, rest);
  }

  lemma SplitOneMore(p: string, j: string)
    requires IsAtom(p) && j != [] && Trimmed(j) && Trimmed(p + ", " + j)
    ensures SplitUp(p + ", " + j, ',') == [p] + SplitUp(j, ',')
  {
    var t := ", " + j;
    assert p + t == p + ", " + j && t[1..] == " " + j;
    FirstPieceAtom(p, t);
    SplitStep(p + t, p, " " + j);
    TrimBlank(j);
    TrimIsTrimmed(j);
  }

  lemma SplitLast(p: string)
    requires IsAtom(p) && Trimmed(p)
    ensures SplitUp(p, ',') == [p]
  {
    TrimIsTrimmed(p);
    assert p + [] == p;
    FirstPieceAtom(p, []);
    PiecesStep([], p, ',', p, []);
    assert Pieces(Trim([]), ',') == [];
  }

  /** Splitting undoes joining: every list of atoms comes back piece by piece. */
  lemma {:induction false} SplitJoined(ps: seq<string>)
    requires ps != [] && forall i | 0 <= i < |ps| :: IsAtom(ps[i])
    ensures SplitUp(Joined(ps), ',') == ps
  {
    JoinedTrimmed(ps);
    if |ps| == 1 {
      SplitLast(ps[0]);
    } else {
      JoinedTrimmed(ps[1..]);
      SplitOneMore(ps[0], Joined(ps[1..]));
      SplitJoined(ps[1..]);
      assert [ps[0]] + ps[1..] == ps;
    }
  }

  /** A quoted text is one piece under every delimiter. */
  lemma SplitQuoted(p: string, delimiter: char)
    requires IsQuotedText(p)
    ensures SplitUp(p, delimiter) == [p]
  {
    TrimIsTrimmed(p);
    FirstPieceQuoted(p, [], delimiter);
    assert p + [] == p;
    assert Pieces(Trim([]), delimiter) == [];
  }
}
