/** The closing-position scanners close_string_quote, close_literal_quote and
    close_sequence of external/CLI/CLI11.hpp, and the grammar they recognise. */
module Brackets {
  import opened Text

  predicate IsQuote(c: char) {
    c == '"' || c == '\'' || c == '`'
  }

  predicate IsOpener(c: char) {
    c == '[' || c == '(' || c == '<' || c == '{'
  }

  predicate IsCloser(c: char) {
    c == ']' || c == ')' || c == '>' || c == '}'
  }

  /** The entry of `matchBracketChars` at the position of `c` in `bracketChars`. */
  function Match(c: char): (r: char)
    requires IsQuote(c) || IsOpener(c)
    ensures IsOpener(c) ==> IsCloser(r)
    ensures IsQuote(c) ==> r == c
  {
    if c == '[' then ']' else if c == '(' then ')' else if c == '<' then '>' else if c == '{' then '}' else c
  }

  // ---------------------------------------------------------------- scanners

  /** Position of the double quote that ends a string whose text starts at `i`,
      skipping the character after each backslash.  Without one the result is
      past the text, by one more if the text ends in a backslash. */
  function StringEnd(s: string, i: nat): (r: nat)
    ensures i <= r && (i <= |s| ==> r <= |s| + 1)
    ensures r < |s| ==> s[r] == '"'
    decreases |s| - i
  {
    if i >= |s| || s[i] == '"' then i
    else if s[i] == '\\' then StringEnd(s, i + 2)
    else StringEnd(s, i + 1)
  }

  method CloseStringQuote(str: string, start: nat) returns (loc: nat)
    ensures loc == StringEnd(str, start + 1)
  {
    loc := start + 1;
    while loc < |str|
      invariant StringEnd(str, loc) == StringEnd(str, start + 1)
      decreases |str| - loc
    {
      if str[loc] == '"' {
        break;
      }
      if str[loc] == '\\' {
        loc := loc + 1;
      }
      loc := loc + 1;
    }
  }

  /** Recursive descent: the position that closes, with `c`, a group whose text
      starts at `i`; the length of the text if there is none.  Strings and
      literals are skipped whole and nested groups are closed first. */
  function GroupEnd(s: string, i: nat, c: char): (r: nat)
    ensures r <= |s| && (i <= |s| ==> i <= r)
    ensures r < |s| ==> s[r] == c
    decreases |s| - i
  {
    if i >= |s| then |s|
    else if s[i] == c then i
    else GroupEnd(s, NextItem(s, i), c)
  }

  /** The position after the item that starts at `i`; past the text if the item is not closed. */
  function NextItem(s: string, i: nat): (r: nat)
    requires i < |s|
    ensures i < r
    decreases |s| - i, 0
  {
    if s[i] == '"' then StringEnd(s, i + 1) + 1
    else if IsQuote(s[i]) then Find(s, s[i], i + 1) + 1
    else if IsOpener(s[i]) then GroupEnd(s, i + 1, Match(s[i])) + 1
    else i + 1
  }

  /** close_sequence, as a function. */
  function CloseSequence(s: string, start: nat, c: char): (r: nat)
    ensures start <= |s| ==> start <= r
  {
    if c == '"' then StringEnd(s, start + 1)
    else if IsCloser(c) then GroupEnd(s, start + 1, c)
    else Find(s, c, start + 1)
  }

  /** Closing a whole stack of groups, innermost (last) first. */
  function StackEnd(s: string, i: nat, closures: seq<char>): nat
    requires closures != []
    decreases |closures|
  {
    var n := |closures| - 1;
    var r := GroupEnd(s, i, closures[n]);
    if n == 0 || r >= |s| then r else StackEnd(s, r + 1, closures[..n])
  }

  /** What the stack loop does at one character other than the awaited closer. */
  lemma StackStep(s: string, i: nat, closures: seq<char>)
    requires i < |s| && closures != [] && s[i] != closures[|closures| - 1]
    ensures !IsOpener(s[i]) ==> StackEnd(s, NextItem(s, i), closures) == StackEnd(s, i, closures)
    ensures IsOpener(s[i]) ==> StackEnd(s, i + 1, closures + [Match(s[i])]) == StackEnd(s, i, closures)
  {
    if IsOpener(s[i]) {
      var c := closures + [Match(s[i])];
      assert c[..|c| - 1] == closures;
      assert c[|c| - 1] == Match(s[i]);
      var r := GroupEnd(s, i + 1, Match(s[i]));
      assert NextItem(s, i) == r + 1;
      if r >= |s| {
        assert GroupEnd(s, r + 1, closures[|closures| - 1]) == |s|;
      }
    }
  }

  /** The stack loop of close_sequence computes the recursive descent. */
  method CloseSequenceLoop(str: string, start: nat, closure: char) returns (r: nat)
    ensures r == CloseSequence(str, start, closure)
  {
    if closure == '"' {
      r := CloseStringQuote(str, start);
      return;
    }
    if !IsCloser(closure) {
      return Find(str, closure, start + 1);
    }
    hide StringEnd;
    var closures := [closure];
    var loc := start + 1;
    while loc < |str|
      invariant closures != [] && forall k | 0 <= k < |closures| :: IsCloser(closures[k])
      invariant StackEnd(str, loc, closures) == GroupEnd(str, start + 1, closure)
      decreases |str| - loc
    {
      if str[loc] == closures[|closures| - 1] {
        assert IsCloser(str[loc]);
        closures := closures[..|closures| - 1];
        if closures == [] {
          return loc;
        }
      } else {
        StackStep(str, loc, closures);
        if str[loc] == '"' {
          loc := CloseStringQuote(str, loc);
        } else if IsQuote(str[loc]) {
          loc := Find(str, str[loc], loc + 1);
        } else if IsOpener(str[loc]) {
          closures := closures + [Match(str[loc])];
        }
      }
      loc := loc + 1;
    }
    r := |str|;
  }

  // ---------------------------------------------------------------- grammar

  /** Bracketed text: plain characters, strings, literals and nested groups. */
  datatype Item =
    | Plain(c: char)
    | Quoted(text: string)
    | Literal(quote: char, text: string)
    | Group(open: char, items: Items)

  datatype Items = Nil | Cons(head: Item, tail: Items)

  function Write(item: Item): string
    requires item.Group? ==> IsOpener(item.open)
    requires item.Group? ==> Writable(item.items)
  {
    match item
    case Plain(c) => [c]
    case Quoted(text) => ['"'] + text + ['"']
    case Literal(q, text) => [q] + text + [q]
    case Group(o, items) => [o] + WriteAll(items) + [Match(o)]
  }

  function WriteAll(items: Items): string
    requires Writable(items)
  {
    match items
    case Nil => []
    case Cons(item, rest) => Write(item) + WriteAll(rest)
  }

  /** Every group in the items starts with an opening bracket. */
  predicate Writable(items: Items) {
    match items
    case Nil => true
    case Cons(item, rest) => (item.Group? ==> IsOpener(item.open) && Writable(item.items)) && Writable(rest)
  }

  /** Text of a string: no bare double quote, and a backslash takes the next character with it. */
  predicate IsStringText(text: string) {
    text == [] ||
    if text[0] == '\\' then |text| >= 2 && IsStringText(text[2..])
    else text[0] != '"' && IsStringText(text[1..])
  }

  /** The items may stand in a group closed by `c`: other closers are plain characters. */
  predicate Derives(items: Items, c: char) {
    match items
    case Nil => true
    case Cons(item, rest) =>
      && Derives(rest, c)
      && match item {
           case Plain(p) => p != c && !IsQuote(p) && !IsOpener(p)
           case Quoted(text) => IsStringText(text)
           case Literal(q, text) => IsQuote(q) && q != '"' && q !in text
           case Group(o, inner) => IsOpener(o) && Derives(inner, Match(o))
         }
  }

  lemma DerivesWritable(items: Items, c: char)
    requires Derives(items, c)
    ensures Writable(items)
  {
    match items
    case Nil =>
    case Cons(item, rest) =>
      if item.Group? { DerivesWritable(item.items, Match(item.open)); }
      DerivesWritable(rest, c);
  }

  /** `text` occurs in `s` at position `i`. */
  predicate At(s: string, i: nat, text: string) {
    i + |text| <= |s| && s[i..i + |text|] == text
  }

  lemma AtConcat(s: string, i: nat, a: string, b: string)
    ensures At(s, i, a + b) <==> At(s, i, a) && At(s, i + |a|, b)
  {
    if At(s, i, a + b) {
      var t := s[i..i + |a + b|];
      assert t[..|a|] == s[i..i + |a|];
      assert t[|a|..] == s[i + |a|..i + |a| + |b|];
      assert (a + b)[..|a|] == a && (a + b)[|a|..] == b;
    }
    if At(s, i, a) && At(s, i + |a|, b) {
      assert s[i..i + |a| + |b|] == s[i..i + |a|] + s[i + |a|..i + |a| + |b|];
    }
  }

  lemma AtChar(s: string, i: nat, c: char)
    ensures At(s, i, [c]) <==> i < |s| && s[i] == c
  {
    if i < |s| {
      assert s[i..i + 1] == [s[i]];
    }
  }

  lemma {:induction false} StringEndAt(s: string, i: nat, text: string)
    requires IsStringText(text) && At(s, i, text + ['"'])
    ensures StringEnd(s, i) == i + |text|
    decreases |text|
  {
    AtConcat(s, i, text, ['"']);
    AtChar(s, i + |text|, '"');
    if text != [] {
      assert s[i] == s[i..i + |text|][0] == text[0];
      var n := if text[0] == '\\' then 2 else 1;
      assert text == text[..n] + text[n..];
      assert text + ['"'] == text[..n] + (text[n..] + ['"']);
      AtConcat(s, i, text[..n], text[n..] + ['"']);
      StringEndAt(s, i + n, text[n..]);
    }
  }

  lemma FindAt(s: string, i: nat, c: char, text: string)
    requires c !in text && At(s, i, text + [c])
    ensures Find(s, c, i) == i + |text|
  {
    AtConcat(s, i, text, [c]);
    AtChar(s, i + |text|, c);
    forall k | i <= k < i + |text|
      ensures s[k] != c
    {
      assert s[k] == s[i..i + |text|][k - i] == text[k - i];
    }
  }

  lemma AtHead(s: string, i: nat, c: char, text: string)
    requires At(s, i, [c] + text)
    ensures i < |s| && s[i] == c && At(s, i + 1, text)
  {
    AtConcat(s, i, [c], text);
    AtChar(s, i, c);
  }

  /** A text in a frame of two characters. */
  lemma AtFramed(s: string, i: nat, a: char, w: string, b: char)
    requires At(s, i, [a] + w + [b])
    ensures i + 1 + |w| < |s| && s[i] == a && s[i + 1 + |w|] == b
    ensures At(s, i + 1, w) && At(s, i + 1, w + [b])
  {
    hide At;
    AtConcat(s, i, [a] + w, [b]);
    AtHead(s, i, a, w);
    AtChar(s, i + 1 + |w|, b);
    AtConcat(s, i + 1, w, [b]);
  }

  lemma QuotedAt(s: string, i: nat, text: string)
    requires IsStringText(text) && At(s, i, ['"'] + text + ['"'])
    ensures i < |s| && s[i] == '"' && NextItem(s, i) == i + |text| + 2
  {
    hide At, IsStringText;
    AtFramed(s, i, '"', text, '"');
    StringEndAt(s, i + 1, text);
  }

  lemma LiteralAt(s: string, i: nat, q: char, text: string)
    requires IsQuote(q) && q != '"' && q !in text && At(s, i, [q] + text + [q])
    ensures i < |s| && s[i] == q && NextItem(s, i) == i + |text| + 2
  {
    hide At;
    AtFramed(s, i, q, text, q);
    FindAt(s, i + 1, q, text);
  }

  lemma GroupAt(s: string, i: nat, o: char, w: string)
    requires IsOpener(o) && At(s, i, [o] + w + [Match(o)])
    ensures i < |s| && s[i] == o && At(s, i + 1, w) && i + 1 + |w| < |s|
    ensures NextItem(s, i) == GroupEnd(s, i + 1, Match(o)) + 1
    ensures GroupEnd(s, i + 1 + |w|, Match(o)) == i + 1 + |w|
  {
    hide At;
    AtFramed(s, i, o, w, Match(o));
  }

  lemma PlainAt(s: string, i: nat, p: char)
    requires At(s, i, [p]) && !IsQuote(p) && !IsOpener(p)
    ensures i < |s| && s[i] == p && NextItem(s, i) == i + 1
  {
    hide At;
    AtChar(s, i, p);
  }

  /** The scanner steps over one written item. */
  lemma NextItemAt(s: string, i: nat, item: Item, c: char)
    requires IsCloser(c) && Derives(Cons(item, Nil), c)
    requires Writable(Cons(item, Nil)) && At(s, i, Write(item))
    ensures i < |s| && s[i] != c && NextItem(s, i) == i + |Write(item)|
    decreases item, 0
  {
    hide At, NextItem, GroupEnd, IsStringText;
    match item
    case Plain(p) => PlainAt(s, i, p);
    case Quoted(text) => QuotedAt(s, i, text);
    case Literal(q, text) => LiteralAt(s, i, q, text);
    case Group(o, inner) =>
      GroupAt(s, i, o, WriteAll(inner));
      GroupEndAt(s, i + 1, inner, Match(o));
  }

  /** The scanner steps over any written items of a group. */
  lemma {:induction false} GroupEndAt(s: string, i: nat, items: Items, c: char)
    requires IsCloser(c) && Derives(items, c)
    requires Writable(items) && At(s, i, WriteAll(items))
    ensures GroupEnd(s, i, c) == GroupEnd(s, i + |WriteAll(items)|, c)
    decreases items, 1
  {
    hide NextItem, At, Write;
    match items
    case Nil =>
    case Cons(item, rest) =>
      AtConcat(s, i, Write(item), WriteAll(rest));
      assert Derives(Cons(item, Nil), c);
      NextItemAt(s, i, item, c);
      GroupEndAt(s, i + |Write(item)|, rest, c);
  }

  /** `s[i..j]` is the text of a group that `s[j]`, equal to `c`, closes. */
  ghost predicate Closes(s: string, i: nat, j: nat, c: char) {
    i <= j < |s| && s[j] == c &&
    exists items :: Derives(items, c) && Writable(items) && s[i..j] == WriteAll(items)
  }

  lemma {:induction false} StringTextBefore(s: string, i: nat)
    requires StringEnd(s, i) < |s|
    ensures IsStringText(s[i..StringEnd(s, i)])
    decreases |s| - i
  {
    var e := StringEnd(s, i);
    if i < e {
      var n := if s[i] == '\\' then 2 else 1;
      StringTextBefore(s, i + n);
      assert s[i..e][n..] == s[i + n..e];
    }
  }

  lemma SliceEnds(s: string, i: nat, e: nat)
    requires i + 2 <= e <= |s|
    ensures s[i..e] == [s[i]] + s[i + 1..e - 1] + [s[e - 1]]
  {
  }

  lemma QuotedItem(s: string, i: nat)
    requires i < |s| && s[i] == '"' && NextItem(s, i) <= |s|
    ensures var e := NextItem(s, i); i + 2 <= e && s[e - 1] == '"' && IsStringText(s[i + 1..e - 1])
  {
    hide GroupEnd, IsStringText;
    StringTextBefore(s, i + 1);
  }

  lemma LiteralItem(s: string, i: nat)
    requires i < |s| && IsQuote(s[i]) && s[i] != '"' && NextItem(s, i) <= |s|
    ensures var e := NextItem(s, i); i + 2 <= e && s[e - 1] == s[i] && s[i] !in s[i + 1..e - 1]
  {
    hide GroupEnd, StringEnd;
  }

  lemma GroupItem(s: string, i: nat, items: Items)
    requires i < |s| && IsOpener(s[i]) && NextItem(s, i) <= |s|
    requires Writable(items) && s[i + 1..GroupEnd(s, i + 1, Match(s[i]))] == WriteAll(items)
    ensures var e := NextItem(s, i); i + 2 <= e && s[e - 1] == Match(s[i]) && s[i + 1..e - 1] == WriteAll(items)
  {
    hide WriteAll, Writable, StringEnd;
  }

  /** The item the scanner steps over. */
  lemma ItemAt(s: string, i: nat, c: char) returns (item: Item)
    requires IsCloser(c) && i < |s| && s[i] != c && NextItem(s, i) <= |s|
    ensures Derives(Cons(item, Nil), c) && Writable(Cons(item, Nil))
    ensures s[i..NextItem(s, i)] == Write(item)
    decreases |s| - i, 0
  {
    hide IsStringText, WriteAll, GroupEnd, StringEnd;
    var e := NextItem(s, i);
    if s[i] == '"' {
      QuotedItem(s, i);
      SliceEnds(s, i, e);
      item := Quoted(s[i + 1..e - 1]);
    } else if IsQuote(s[i]) {
      LiteralItem(s, i);
      SliceEnds(s, i, e);
      item := Literal(s[i], s[i + 1..e - 1]);
    } else if IsOpener(s[i]) {
      var items := ItemsAt(s, i + 1, Match(s[i]));
      GroupItem(s, i, items);
      SliceEnds(s, i, e);
      item := Group(s[i], items);
    } else {
      item := Plain(s[i]);
      assert s[i..e] == [s[i]];
    }
  }

  /** The items of a group the scanner closes. */
  lemma ItemsAt(s: string, i: nat, c: char) returns (items: Items)
    requires IsCloser(c) && i <= GroupEnd(s, i, c) < |s|
    ensures Derives(items, c) && Writable(items) && s[i..GroupEnd(s, i, c)] == WriteAll(items)
    decreases |s| - i, 1
  {
    var e := GroupEnd(s, i, c);
    if s[i] == c {
      items := Nil;
    } else {
      var n := NextItem(s, i);
      var item := ItemAt(s, i, c);
      var rest := ItemsAt(s, n, c);
      items := Cons(item, rest);
      assert s[i..e] == s[i..n] + s[n..e];
    }
  }

  /** close_sequence finds exactly the position the grammar gives: for every
      position `j` of the text, it returns `j` if and only if `j` closes the
      group.  So at most one position does, and it returns the length of the
      text when none does. */
  lemma CloseSequenceMeetsGrammar(s: string, start: nat, c: char, j: nat)
    requires start < |s| && IsCloser(c) && j < |s|
    ensures CloseSequence(s, start, c) <= |s|
    ensures Closes(s, start + 1, j, c) <==> CloseSequence(s, start, c) == j
  {
    hide Writable, WriteAll, Derives;
    var i := start + 1;
    if Closes(s, i, j, c) {
      var items :| Derives(items, c) && Writable(items) && s[i..j] == WriteAll(items);
      GroupEndAt(s, i, items, c);
    }
    if GroupEnd(s, i, c) == j {
      var items := ItemsAt(s, i, c);
    }
  }
}
