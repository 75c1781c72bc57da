/**
  What the collapsed form of a line is, as a relation between the two texts: escapes gone, literals
  emptied, digit separators gone, everything else kept. `_CollapseStrings` computes the one such form.
 */
module CollapseGrammar {
  import opened Prelude
  import opened CppText
  import opened CollapseStrings

  // ----- Escapes -----

  predicate Digits(s: string) {
    forall i :: 0 <= i < |s| ==> '0' <= s[i] <= '9'
  }

  predicate HexDigits(s: string) {
    forall i :: 0 <= i < |s| ==> '0' <= s[i] <= '9' || 'a' <= s[i] <= 'f' || 'A' <= s[i] <= 'F'
  }

  /** A backslash and a letter or mark, a backslash and digits, or a backslash, an x and hex digits. */
  predicate IsEscape(e: string) {
    |e| > 1 && e[0] == '\\' &&
    ((|e| == 2 && e[1] in "abfnrtv?\"\\'") || Digits(e[1..]) || (|e| > 2 && e[1] == 'x' && HexDigits(e[2..])))
  }

  predicate LongestEscape(s: string, n: nat) {
    n <= |s| && IsEscape(s[..n]) && forall m :: n < m <= |s| ==> !IsEscape(s[..m])
  }

  /** `r` is `s` without its escapes, found from left to right. */
  ghost predicate Unescapes(s: string, r: string)
    decreases |s|
  {
    if s == [] then r == []
    else if exists n :: 0 <= n <= |s| && IsEscape(s[..n]) then
      exists n :: 0 < n <= |s| && LongestEscape(s, n) && Unescapes(s[n..], r)
    else r != [] && r[0] == s[0] && Unescapes(s[1..], r[1..])
  }

  lemma {:induction false} RunIs(s: string, p: char -> bool)
    ensures var n := RunLength(s, p);
            (forall i :: 0 <= i < n ==> p(s[i])) && (n < |s| ==> !p(s[n]))
  {
    if s == [] {
    } else if p(s[0]) {
      RunIs(s[1..], p);
      assert forall i :: 0 < i < RunLength(s, p) ==> s[i] == s[1..][i - 1];
    }
  }

  /** A run of digits decides which prefixes are made of digits only. */
  lemma DigitPrefixes(s: string)
    requires |s| > 1 && IsDigit(s[1])
    ensures var n := 1 + RunLength(s[1..], c => IsDigit(c)); forall m :: 1 < m <= |s| ==> (Digits(s[..m][1..]) <==> m <= n)
  {
    var t, n := s[1..], RunLength(s[1..], c => IsDigit(c));
    RunIs(t, c => IsDigit(c));
    forall m | 1 < m <= |s| ensures Digits(s[..m][1..]) <==> m <= 1 + n {
      assert forall i :: 0 <= i < m - 1 ==> s[..m][1..][i] == t[i];
      if m > 1 + n {
        assert s[..m][1..][n] == t[n];
      }
    }
  }

  lemma HexPrefixes(s: string)
    requires |s| > 2
    ensures var n := 2 + RunLength(s[2..], c => IsHexDigit(c)); forall m :: 2 < m <= |s| ==> (HexDigits(s[..m][2..]) <==> m <= n)
  {
    var t, n := s[2..], RunLength(s[2..], c => IsHexDigit(c));
    RunIs(t, c => IsHexDigit(c));
    forall m | 2 < m <= |s| ensures HexDigits(s[..m][2..]) <==> m <= 2 + n {
      assert forall i :: 0 <= i < m - 2 ==> s[..m][2..][i] == t[i];
      if m > 2 + n {
        assert s[..m][2..][n] == t[n];
      }
    }
  }

  /** The length computed is that of the longest escape at the start, 0 when there is none. */
  lemma EscapeIs(s: string)
    ensures var n := EscapeLength(s);
            if n == 0 then forall m :: 0 <= m <= |s| ==> !IsEscape(s[..m]) else LongestEscape(s, n)
  {
    if |s| >= 2 && s[0] == '\\' {
      if IsDigit(s[1]) {
        DigitPrefixes(s);
      } else if |s| > 2 {
        HexPrefixes(s);
      }
      assert forall m :: 2 <= m <= |s| ==> s[..m][0] == s[0] && s[..m][1] == s[1];
    }
  }

  lemma EscapeFirst(s: string, r: string, n: nat)
    requires 0 < n <= |s| && LongestEscape(s, n)
    ensures Unescapes(s, r) <==> Unescapes(s[n..], r)
  {
    assert IsEscape(s[..n]);
    hide IsEscape;
    forall m: nat | m <= |s| && LongestEscape(s, m) ensures m == n { }
  }

  lemma PlainFirst(s: string, r: string)
    requires s != [] && forall m :: 0 <= m <= |s| ==> !IsEscape(s[..m])
    ensures Unescapes(s, r) <==> r != [] && r[0] == s[0] && Unescapes(s[1..], r[1..])
  {
    hide IsEscape;
  }

  lemma NothingRemoved(r: string)
    ensures Unescapes([], r) <==> r == [] == RemoveEscapes([])
  {
  }

  lemma RemoveFirst(s: string)
    requires s != []
    ensures var n := EscapeLength(s);
            RemoveEscapes(s) == if n > 0 then RemoveEscapes(s[n..]) else [s[0]] + RemoveEscapes(s[1..])
  {
    hide EscapeLength;
  }

  /** Removing the escapes gives the one text that is `s` without them. */
  lemma {:induction false} UnescapesIff(s: string, r: string)
    ensures Unescapes(s, r) <==> r == RemoveEscapes(s)
    decreases |s|
  {
    hide *;
    if s == [] {
      NothingRemoved(r);
    } else {
      var n := EscapeLength(s);
      RemoveFirst(s);
      EscapeIs(s);
      if n > 0 {
        EscapeFirst(s, r, n);
        UnescapesIff(s[n..], r);
      } else {
        PlainFirst(s, r);
        if r != [] {
          UnescapesIff(s[1..], r[1..]);
          assert r == [r[0]] + r[1..];
        }
        assert ([s[0]] + RemoveEscapes(s[1..]))[1..] == RemoveEscapes(s[1..]);
      }
    }
  }

  // ----- Literals -----

  predicate Quoteless(s: string) {
    forall k :: 0 <= k < |s| ==> s[k] != '"' && s[k] != '\''
  }

  /** The first quote of either kind. */
  predicate QuoteAt(s: string, i: nat) {
    i < |s| && (s[i] == '"' || s[i] == '\'') && Quoteless(s[..i])
  }

  /** A number is being written: from `k` on, 0 with or without a base letter or a digit, then hex digits from `m` on. */
  predicate NumberFrom(head: string, k: nat, m: nat) {
    k < m <= |head| && (k == 0 || !IsWordChar(head[k - 1])) && HexDigits(head[m..]) &&
    ((head[k] == '0' && (m == k + 1 || (m == k + 2 && head[k + 1] in "bBxX"))) || ('1' <= head[k] <= '9' && m == k + 1))
  }

  ghost predicate InNumber(head: string) {
    exists k: nat, m: nat :: NumberFrom(head, k, m)
  }

  /** A letter or digit, or a separator with one behind it. */
  predicate PartAt(u: string, i: nat)
    requires i < |u|
  {
    IsWordChar(u[i]) || (u[i] == '\'' && i + 1 < |u| && IsWordChar(u[i + 1]))
  }

  predicate Separated(u: string) {
    forall i :: 0 <= i < |u| ==> PartAt(u, i)
  }

  /** As much of `t` as can belong to the number. */
  predicate LongestNumber(t: string, n: nat) {
    n <= |t| && Separated(t[..n]) && forall m :: n < m <= |t| ==> !Separated(t[..m])
  }

  /** The characters that are not separators. */
  function Letters(u: string): string {
    if u == [] then []
    else Letters(u[..|u| - 1]) + if u[|u| - 1] == '\'' then [] else [u[|u| - 1]]
  }

  /** The next quote of the same kind. */
  predicate ClosedAt(s: string, i: nat, j: nat) {
    i < j < |s| && s[j] == s[i] && forall k :: i < k < j ==> s[k] != s[i]
  }

  /** `r` begins with `a` and goes on with a collapsed form of `s`. */
  ghost predicate Continues(s: string, a: string, r: string)
    decreases |s|, 2
  {
    |a| <= |r| && r[..|a|] == a && Collapses(s, r[|a|..])
  }

  /**
    `r` is `s` with its literals collapsed: text without quotes stays; a number loses its separators; from
    the first quote to its partner only the two quotes stay; without a partner the rest stays as it is.
   */
  ghost predicate Collapses(s: string, r: string)
    decreases |s|, 1
  {
    if Quoteless(s) then r == s
    else exists i: nat :: QuoteAt(s, i) && CollapsesAt(s, i, r)
  }

  ghost predicate CollapsesAt(s: string, i: nat, r: string)
    requires QuoteAt(s, i)
    decreases |s|, 0
  {
    if s[i] == '\'' && InNumber(s[..i]) then
      exists n: nat :: LongestNumber(s[i..], n) && i + n > 0 && Continues(s[i + n..], s[..i] + Letters(s[i..i + n]), r)
    else if exists j: nat :: ClosedAt(s, i, j) then
      exists j: nat :: ClosedAt(s, i, j) && Continues(s[j + 1..], s[..i] + [s[i], s[i]], r)
    else r == s
  }

  lemma NumberForm(head: string, k: nat)
    requires k < |head|
    ensures NumberStartsAt(head, k) <==> NumberFrom(head, k, k + 1) || NumberFrom(head, k, k + 2)
  {
    assert AllHex(head[k + 1..]) <==> HexDigits(head[k + 1..]);
    if k + 2 <= |head| {
      assert AllHex(head[k + 2..]) <==> HexDigits(head[k + 2..]);
    }
    hide AllHex, HexDigits;
  }

  lemma NumberIff(head: string)
    ensures EndsInNumber(head) <==> InNumber(head)
  {
    hide NumberStartsAt;
    forall k | 0 <= k < |head| ensures NumberStartsAt(head, k) <==> NumberFrom(head, k, k + 1) || NumberFrom(head, k, k + 2) {
      NumberForm(head, k);
    }
    if k: nat, m: nat :| NumberFrom(head, k, m) {
      assert m == k + 1 || m == k + 2;
      assert NumberStartsAt(head, k);
    }
  }

  lemma {:induction false} LettersAppend(u: string, v: string)
    ensures Letters(u + v) == Letters(u) + Letters(v)
    decreases |v|
  {
    if v == [] {
      assert u + v == u;
    } else {
      LettersAppend(u, v[..|v| - 1]);
      assert (u + v)[..|u + v| - 1] == u + v[..|v| - 1];
    }
  }

  lemma LettersFirst(u: string)
    requires u != []
    ensures Letters(u) == (if u[0] == '\'' then [] else [u[0]]) + Letters(u[1..])
  {
    LettersAppend([u[0]], u[1..]);
    assert u == [u[0]] + u[1..];
    assert [u[0]][..0] == [];
    assert Letters([u[0]]) == if u[0] == '\'' then [] else [u[0]];
    hide Letters;
  }

  lemma {:induction false} DropIsLetters(u: string)
    ensures DropSingleQuotes(u) == Letters(u)
  {
    if u == [] {
    } else {
      LettersFirst(u);
      hide Letters;
      DropIsLetters(u[1..]);
    }
  }

  lemma SeparatedTail(u: string, k: nat)
    requires Separated(u) && k <= |u|
    ensures Separated(u[k..])
  {
    forall i | 0 <= i < |u| - k ensures PartAt(u[k..], i) {
      assert PartAt(u, i + k);
    }
  }

  /** The greedy length is the longest. */
  lemma {:induction false} LiteralIs(s: string)
    ensures Separated(s[..LiteralLength(s)])
    ensures forall m :: LiteralLength(s) < m <= |s| ==> !Separated(s[..m])
    decreases |s|
  {
    var n := LiteralLength(s);
    if s != [] && IsWordChar(s[0]) {
      LiteralIs(s[1..]);
      LiteralTail(s, 1);
    } else if |s| > 1 && s[0] == '\'' && IsWordChar(s[1]) {
      LiteralIs(s[2..]);
      LiteralTail(s, 2);
    } else {
      assert s[..0] == [];
      forall m | 0 < m <= |s| ensures !Separated(s[..m]) {
        assert !PartAt(s[..m], 0);
      }
    }
  }

  lemma LiteralTail(s: string, k: nat)
    requires (k == 1 && s != [] && IsWordChar(s[0])) || (k == 2 && |s| > 1 && s[0] == '\'' && IsWordChar(s[1]))
    requires LiteralLength(s) == k + LiteralLength(s[k..])
    requires Separated(s[k..][..LiteralLength(s[k..])])
    requires forall m :: LiteralLength(s[k..]) < m <= |s[k..]| ==> !Separated(s[k..][..m])
    ensures Separated(s[..LiteralLength(s)])
    ensures forall m :: LiteralLength(s) < m <= |s| ==> !Separated(s[..m])
  {
    hide LiteralLength;
    var n, t := LiteralLength(s), s[k..];
    var u := t[..LiteralLength(t)];
    forall i | 0 <= i < n ensures PartAt(s[..n], i) {
      if i >= k {
        assert PartAt(u, i - k);
      }
    }
    forall m | n < m <= |s| ensures !Separated(s[..m]) {
      assert s[..m][k..] == t[..m - k];
      if Separated(s[..m]) {
        SeparatedTail(s[..m], k);
      }
    }
  }

  // ----- The one collapsed form -----

  lemma FirstQuoteIs(s: string)
    ensures FirstQuote(s) == |s| <==> Quoteless(s)
    ensures FirstQuote(s) < |s| ==> QuoteAt(s, FirstQuote(s))
    ensures forall i: nat :: QuoteAt(s, i) ==> i == FirstQuote(s)
  {
    hide FirstQuote;
    forall i: nat | QuoteAt(s, i) ensures i == FirstQuote(s) {
      assert forall k :: 0 <= k < i ==> s[..i][k] == s[k];
    }
  }

  lemma {:induction false} IndexIs(s: string, c: char)
    ensures match IndexOf(s, c) case Some(j) => (forall k :: 0 <= k < j ==> s[k] != c) case None => true
  {
    if s == [] || s[0] == c {
    } else {
      IndexIs(s[1..], c);
      assert forall k :: 0 < k < |s| ==> s[k] == s[1..][k - 1];
    }
  }

  /** The partner found is the first quote of the same kind. */
  lemma PartnerIs(s: string, i: nat)
    requires i < |s|
    ensures match IndexOf(s[i + 1..], s[i])
      case Some(j) => ClosedAt(s, i, i + 1 + j) && forall k: nat :: ClosedAt(s, i, k) ==> k == i + 1 + j
      case None => forall k: nat :: !ClosedAt(s, i, k)
  {
    IndexIs(s[i + 1..], s[i]);
    assert forall k :: i < k < |s| ==> s[k] == s[i + 1..][k - i - 1];
    hide IndexOf;
  }

  /** Behind the piece `a` the result goes on with the collapsed rest. */
  lemma {:induction false} ContinuesIff(s: string, a: string, r: string)
    ensures Continues(s, a, r) <==> r == a + Collapse(s)
    decreases |s|, 2
  {
    hide Collapses, Collapse;
    if |a| <= |r| {
      CollapsesIff(s, r[|a|..]);
      assert r == r[..|a|] + r[|a|..];
    }
    assert (a + Collapse(s))[..|a|] == a && (a + Collapse(s))[|a|..] == Collapse(s);
  }

  /** `Collapse` gives the one collapsed form of a text. */
  lemma {:induction false} CollapsesIff(s: string, r: string)
    ensures Collapses(s, r) <==> r == Collapse(s)
    decreases |s|, 1
  {
    FirstQuoteIs(s);
    var i := FirstQuote(s);
    if i == |s| {
    } else {
      assert Collapses(s, r) <==> CollapsesAt(s, i, r);
      CollapsesAtIff(s, i, r);
    }
  }

  lemma {:induction false} CollapsesAtIff(s: string, i: nat, r: string)
    requires QuoteAt(s, i) && i == FirstQuote(s)
    ensures CollapsesAt(s, i, r) <==> r == Collapse(s)
    decreases |s|, 0
  {
    NumberIff(s[..i]);
    hide FirstQuote, EndsInNumber, InNumber, Collapse, CollapsesAt;
    if s[i] == '\'' && InNumber(s[..i]) {
      var n := NumberTurn(s, i);
      NumberPieceIff(s, i, r, n);
      ContinuesIff(s[i + n..], s[..i] + Letters(s[i..i + n]), r);
    } else {
      var j := LiteralTurn(s, i);
      LiteralPieceIff(s, i, r, j);
      if j < |s| {
        ContinuesIff(s[j + 1..], s[..i] + [s[i], s[i]], r);
      }
    }
  }

  lemma NumberNotFirst(head: string)
    requires EndsInNumber(head)
    ensures head != []
  {
  }

  /** The loop's turn at a number. */
  lemma NumberTurn(s: string, i: nat) returns (n: nat)
    requires QuoteAt(s, i) && i == FirstQuote(s) && s[i] == '\'' && EndsInNumber(s[..i])
    ensures i + n > 0 && LongestNumber(s[i..], n)
    ensures Collapse(s) == s[..i] + Letters(s[i..i + n]) + Collapse(s[i + n..])
  {
    hide *;
    n := LiteralLength(s[i..]);
    NumberNotFirst(s[..i]);
    QuoteInside(s, i);
    LiteralIs(s[i..]);
    LongestIs(s[i..], n);
    DropIsLetters(s[i..i + n]);
    NumberTake(s, i);
    assert s[i..][..n] == s[i..i + n];
    TurnGoes(s, s[..i] + DropSingleQuotes(s[i..i + n]), i + n);
  }

  lemma QuoteInside(s: string, i: nat)
    requires QuoteAt(s, i)
    ensures i < |s|
  {
  }

  lemma LongestIs(t: string, n: nat)
    requires n <= |t| && Separated(t[..n]) && forall m :: n < m <= |t| ==> !Separated(t[..m])
    ensures LongestNumber(t, n)
  {
  }

  lemma NumberTake(s: string, i: nat)
    requires i < |s| && i == FirstQuote(s) && s[i] == '\'' && EndsInNumber(s[..i])
    ensures var n := LiteralLength(s[i..]); TakeTurn(s) == Go(s[..i] + DropSingleQuotes(s[i..][..n]), i + n)
  {
    hide FirstQuote, EndsInNumber, DropSingleQuotes, LiteralLength;
  }

  lemma LiteralTake(s: string, i: nat)
    requires i < |s| && i == FirstQuote(s) && !(s[i] == '\'' && EndsInNumber(s[..i]))
    ensures var found := IndexOf(s[i + 1..], s[i]);
            TakeTurn(s) == if found.Some? then Go(s[..i] + [s[i], s[i]], i + 1 + found.value + 1) else Stop
  {
    hide FirstQuote, EndsInNumber, IndexOf;
  }

  lemma TurnGoes(s: string, piece: string, n: nat)
    requires TakeTurn(s) == Go(piece, n)
    ensures 0 < n <= |s| && Collapse(s) == piece + Collapse(s[n..])
  {
    var t := TakeTurn(s);
    hide TakeTurn;
  }

  lemma TurnStops(s: string)
    requires TakeTurn(s) == Stop
    ensures Collapse(s) == s
  {
    hide TakeTurn;
  }

  lemma NumberPieceIff(s: string, i: nat, r: string, n: nat)
    requires QuoteAt(s, i) && s[i] == '\'' && InNumber(s[..i]) && LongestNumber(s[i..], n) && i + n > 0
    ensures CollapsesAt(s, i, r) <==> Continues(s[i + n..], s[..i] + Letters(s[i..i + n]), r)
  {
    hide InNumber, Continues, Letters, Separated;
    forall m: nat | LongestNumber(s[i..], m) ensures m == n { }
  }

  /** The loop's turn at a literal; `j` is its closing quote, or the length when there is none. */
  lemma LiteralTurn(s: string, i: nat) returns (j: nat)
    requires QuoteAt(s, i) && i == FirstQuote(s) && !(s[i] == '\'' && EndsInNumber(s[..i]))
    ensures j <= |s| && if j < |s| then ClosedAt(s, i, j) else forall k: nat :: !ClosedAt(s, i, k)
    ensures Collapse(s) == if j < |s| then s[..i] + [s[i], s[i]] + Collapse(s[j + 1..]) else s
  {
    hide *;
    QuoteInside(s, i);
    PartnerIs(s, i);
    LiteralTake(s, i);
    var found := IndexOf(s[i + 1..], s[i]);
    j := if found.Some? then i + 1 + found.value else |s|;
    if found.Some? {
      TurnGoes(s, s[..i] + [s[i], s[i]], j + 1);
    } else {
      TurnStops(s);
    }
  }

  lemma LiteralPieceIff(s: string, i: nat, r: string, j: nat)
    requires QuoteAt(s, i) && !(s[i] == '\'' && InNumber(s[..i])) && j <= |s|
    requires if j < |s| then ClosedAt(s, i, j) else forall k: nat :: !ClosedAt(s, i, k)
    ensures CollapsesAt(s, i, r) <==> if j < |s| then Continues(s[j + 1..], s[..i] + [s[i], s[i]], r) else r == s
  {
    hide InNumber, Continues;
    forall k: nat | ClosedAt(s, i, k) && j < |s| ensures k == j { }
  }

  /** The whole function: the one collapsed form of the line without its escapes. */
  lemma CollapsedLine(line: string, r: string)
    ensures r == Collapse(RemoveEscapes(line)) <==> exists u :: Unescapes(line, u) && Collapses(u, r)
  {
    hide Unescapes, Collapses, Collapse, RemoveEscapes;
    forall u ensures Unescapes(line, u) <==> u == RemoveEscapes(line) {
      UnescapesIff(line, u);
    }
    CollapsesIff(RemoveEscapes(line), r);
  }
}
