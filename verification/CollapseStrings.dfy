/** `CleansedLines._CollapseStrings`: string and character literals become `""` and `''`. */
module CollapseStrings {
  import opened Prelude
  import opened CppText

  predicate IsDigit(c: char) {
    '0' <= c <= '9'
  }

  predicate IsHexDigit(c: char) {
    IsDigit(c) || 'a' <= c <= 'f' || 'A' <= c <= 'F'
  }

  predicate IsQuote(c: char) {
    c == '"' || c == '\''
  }

  // ----- Escapes -----

  /** Length of the run of characters satisfying `p` at the start of `s`. */
  function RunLength(s: string, p: char -> bool): (n: nat)
    ensures n <= |s|
  {
    if s != [] && p(s[0]) then 1 + RunLength(s[1..], p) else 0
  }

  /** Length of `\\([abfnrtv?"\\']|\d+|x[0-9a-fA-F]+)` at the start of `s`; 0 when it does not match. */
  function EscapeLength(s: string): (n: nat)
    ensures n <= |s| && n != 1
  {
    if |s| < 2 || s[0] != '\\' then 0
    else if s[1] in "abfnrtv?\"\\'" then 2
    else if IsDigit(s[1]) then 1 + RunLength(s[1..], c => IsDigit(c))
    else if s[1] == 'x' && RunLength(s[2..], c => IsHexDigit(c)) > 0 then 2 + RunLength(s[2..], c => IsHexDigit(c))
    else 0
  }

  function RemoveEscapes(s: string): (r: string)
    ensures |r| <= |s|
    decreases |s|
  {
    if s == [] then []
    else if EscapeLength(s) > 0 then RemoveEscapes(s[EscapeLength(s)..])
    else [s[0]] + RemoveEscapes(s[1..])
  }

  // ----- Quotes -----

  /** Index of the first quote of either kind, or the length. */
  function FirstQuote(s: string): (i: nat)
    ensures i <= |s|
    ensures forall k :: 0 <= k < i ==> !IsQuote(s[k])
    ensures i < |s| ==> IsQuote(s[i])
  {
    if s == [] || IsQuote(s[0]) then 0 else 1 + FirstQuote(s[1..])
  }

  function IndexOf(s: string, c: char): (r: Option<nat>)
    ensures r.Some? ==> r.value < |s| && s[r.value] == c
    ensures r.None? ==> c !in s
  {
    if s == [] then None
    else if s[0] == c then Some(0)
    else match IndexOf(s[1..], c)
      case Some(i) => Some(i + 1)
      case None => None
  }

  predicate AllHex(s: string) {
    forall i :: 0 <= i < |s| ==> IsHexDigit(s[i])
  }

  /** `\b(?:0[bBxX]?|[1-9])[0-9a-fA-F]*$` found in `head`: a number is being written. */
  predicate EndsInNumber(head: string) {
    exists k :: 0 <= k < |head| && NumberStartsAt(head, k)
  }

  predicate NumberStartsAt(head: string, k: nat)
    requires k < |head|
  {
    IsDigit(head[k]) && (k == 0 || !IsWordChar(head[k - 1])) &&
    (AllHex(head[k + 1..]) ||
     (head[k] == '0' && k + 1 < |head| && head[k + 1] in "bBxX" && AllHex(head[k + 2..])))
  }

  /** Length of `(?:'?[0-9a-zA-Z_])*` at the start of `s`. */
  function LiteralLength(s: string): (n: nat)
    ensures n <= |s|
    decreases |s|
  {
    if s != [] && IsWordChar(s[0]) then 1 + LiteralLength(s[1..])
    else if |s| > 1 && s[0] == '\'' && IsWordChar(s[1]) then 2 + LiteralLength(s[2..])
    else 0
  }

  function DropSingleQuotes(s: string): (r: string)
    ensures |r| <= |s|
  {
    if s == [] then [] else if s[0] == '\'' then DropSingleQuotes(s[1..]) else [s[0]] + DropSingleQuotes(s[1..])
  }

  /** One turn of the loop: append the rest and stop, or append `piece` and go on from `next`. */
  datatype Turn = Stop | Go(piece: string, next: nat)

  function TakeTurn(s: string): (t: Turn)
    ensures t.Go? ==> 0 < t.next <= |s|
  {
    var i := FirstQuote(s);
    if i == |s| then Stop
    else
      var head, tail := s[..i], s[i + 1..];
      if s[i] == '\'' && EndsInNumber(head) then
        var n := LiteralLength(s[i..]);
        Go(head + DropSingleQuotes(s[i..][..n]), i + n)
      else
        match IndexOf(tail, s[i])
        case Some(j) => Go(head + [s[i], s[i]], i + 1 + j + 1)
        case None => Stop
  }

  /** What the loop appends for the rest `s` of the line. */
  function Collapse(s: string): string
    decreases |s|
  {
    match TakeTurn(s)
    case Stop => s
    case Go(piece, next) => piece + Collapse(s[next..])
  }

  /** `isInclude` answers whether the line is an include directive, which is left alone. */
  method CollapseLine(line: string, isInclude: bool) returns (collapsed: string)
    ensures collapsed == if isInclude then line else Collapse(RemoveEscapes(line))
  {
    hide RemoveEscapes, TakeTurn;
    if isInclude {
      return line;
    }
    var elided := RemoveEscapes(line);
    ghost var goal := Collapse(elided);
    collapsed := [];
    while true
      invariant collapsed + Collapse(elided) == goal
      decreases |elided|
    {
      var piece, next := CollapseFirst(elided);
      collapsed := collapsed + piece;
      if next.None? {
        break;
      }
      elided := elided[next.value..];
    }
  }

  /** The loop body: what is appended, and where the loop goes on if it does. */
  method CollapseFirst(elided: string) returns (piece: string, next: Option<nat>)
    ensures match TakeTurn(elided)
      case Stop => piece == elided && next == None
      case Go(p, n) => piece == p && next == Some(n)
  {
    hide FirstQuote, IndexOf, LiteralLength, DropSingleQuotes, EndsInNumber;
    var i := FirstQuote(elided);
    if i == |elided| {
      return elided, None;
    }
    var head, quote, tail := elided[..i], elided[i], elided[i + 1..];
    if quote == '"' {
      var second := IndexOf(tail, '"');
      if second.Some? {
        return head + [quote, quote], Some(i + 1 + second.value + 1);
      }
      return elided, None;
    }
    if EndsInNumber(head) {
      var rest := ['\''] + tail;
      assert rest == elided[i..];
      var n := LiteralLength(rest);
      return head + DropSingleQuotes(rest[..n]), Some(i + n);
    }
    var second := IndexOf(tail, '\'');
    if second.Some? {
      return head + [quote, quote], Some(i + 1 + second.value + 1);
    }
    return elided, None;
  }

  // ----- What is left of quoted text -----

  /** E ::= empty | x E | "" E | '' E, where x is not a quote. */
  predicate OnlyEmptyLiterals(s: string)
    decreases |s|
  {
    if s == [] then true
    else if IsQuote(s[0]) then |s| > 1 && s[1] == s[0] && OnlyEmptyLiterals(s[2..])
    else OnlyEmptyLiterals(s[1..])
  }

  /** The first quote in `s` has no partner. */
  predicate Dangling(s: string) {
    var i := FirstQuote(s);
    i < |s| && s[i] !in s[i + 1..]
  }

  lemma {:induction false} EmptyLiteralsConcat(a: string, b: string)
    requires OnlyEmptyLiterals(a) && OnlyEmptyLiterals(b)
    ensures OnlyEmptyLiterals(a + b)
    decreases |a|
  {
    if a == [] {
      assert a + b == b;
    } else if IsQuote(a[0]) {
      EmptyLiteralsConcat(a[2..], b);
      assert (a + b)[2..] == a[2..] + b;
    } else {
      EmptyLiteralsConcat(a[1..], b);
      assert (a + b)[1..] == a[1..] + b;
    }
  }

  lemma {:induction false} NoQuotes(s: string)
    requires forall k :: 0 <= k < |s| ==> !IsQuote(s[k])
    ensures OnlyEmptyLiterals(s)
  {
    if s == [] {
    } else {
      NoQuotes(s[1..]);
    }
  }

  lemma {:induction false} LiteralWithoutSeparators(s: string)
    ensures OnlyEmptyLiterals(DropSingleQuotes(s[..LiteralLength(s)]))
    decreases |s|
  {
    var t := s[..LiteralLength(s)];
    if s != [] && IsWordChar(s[0]) {
      LiteralWithoutSeparators(s[1..]);
      assert t[1..] == s[1..][..LiteralLength(s[1..])];
      assert ([s[0]] + DropSingleQuotes(t[1..]))[1..] == DropSingleQuotes(t[1..]);
    } else if LiteralLength(s) > 0 {
      LiteralWithoutSeparators(s[2..]);
      assert t[1..][1..] == s[2..][..LiteralLength(s[2..])];
      var u := DropSingleQuotes(t[1..][1..]);
      assert DropSingleQuotes(t) == DropSingleQuotes(t[1..]) == [s[1]] + u;
      assert ([s[1]] + u)[1..] == u;
    }
  }

  lemma TurnEmptiesLiterals(s: string)
    ensures match TakeTurn(s)
      case Stop => OnlyEmptyLiterals(s) || Dangling(s)
      case Go(piece, _) => OnlyEmptyLiterals(piece)
  {
    hide EndsInNumber, OnlyEmptyLiterals, LiteralLength, DropSingleQuotes, IndexOf;
    var i := FirstQuote(s);
    if i == |s| {
      NoQuotes(s);
    } else {
      NoQuotes(s[..i]);
      LiteralWithoutSeparators(s[i..]);
      EmptyLiteralsConcat(s[..i], DropSingleQuotes(s[i..][..LiteralLength(s[i..])]));
      EmptyPair(s[i]);
      EmptyLiteralsConcat(s[..i], [s[i], s[i]]);
    }
  }

  lemma EmptyPair(q: char)
    requires IsQuote(q)
    ensures OnlyEmptyLiterals([q, q])
  {
    assert [q, q][2..] == [];
  }

  /**
    Every literal is emptied: up to `|done|` the result's quotes all come in empty pairs, and what
    follows is the end of the line, from text before a quote without partner.
   */
  lemma {:induction false} CollapseEmptiesLiterals(s: string) returns (done: string, k: nat)
    ensures k <= |s| && Collapse(s) == done + s[k..] && OnlyEmptyLiterals(done)
    ensures k == |s| || Dangling(s[k..])
    decreases |s|
  {
    hide TakeTurn, OnlyEmptyLiterals, Dangling;
    TurnEmptiesLiterals(s);
    match TakeTurn(s)
    case Stop =>
      if OnlyEmptyLiterals(s) {
        done, k := s, |s|;
      } else {
        EmptyText();
        done, k := [], 0;
      }
    case Go(piece, next) =>
      assert Collapse(s) == piece + Collapse(s[next..]);
      var d, j := CollapseEmptiesLiterals(s[next..]);
      hide Collapse;
      EmptyLiteralsConcat(piece, d);
      done, k := piece + d, next + j;
      assert s[next..][j..] == s[k..];
      assert piece + (d + s[k..]) == done + s[k..];
  }

  lemma EmptyText()
    ensures OnlyEmptyLiterals([])
  {
  }
}
