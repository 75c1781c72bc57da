/** Characters, lines and the lexical tests the C++ scanner's matchers share. */
module CppText {
  /** The characters that `\s` matches. */
  predicate IsSpace(c: char) {
    c == ' ' || c == '\t' || c == '\n' || c == '\r' || c == '\U{000B}' || c == '\U{000C}'
  }

  /** The characters that `\w` matches. */
  predicate IsWordChar(c: char) {
    'a' <= c <= 'z' || 'A' <= c <= 'Z' || '0' <= c <= '9' || c == '_'
  }

  /** A search for `\boperator\s*$` in `s`. */
  predicate EndsWithOperator(s: string) {
    if s == [] then false
    else if IsSpace(s[|s| - 1]) then EndsWithOperator(s[..|s| - 1])
    else |s| >= 8 && s[|s| - 8..] == "operator" && (|s| == 8 || !IsWordChar(s[|s| - 9]))
  }

  /** The word `operator` stands at `k`, and nothing but space between it and `i`. */
  predicate OperatorAt(s: string, k: nat, i: nat)
    requires i <= |s|
  {
    k + 8 <= i && s[k..k + 8] == "operator" && (k == 0 || !IsWordChar(s[k - 1])) &&
    forall j :: k + 8 <= j < i ==> IsSpace(s[j])
  }

  ghost predicate OperatorBefore(s: string, i: nat)
    requires i <= |s|
  {
    exists k :: OperatorAt(s, k, i)
  }

  lemma OperatorEndsSolid(s: string, k: nat, i: nat)
    requires i <= |s| && OperatorAt(s, k, i)
    ensures !IsSpace(s[k + 7]) && (k + 8 < i ==> IsSpace(s[i - 1]))
  {
    assert s[k + 7] == s[k..k + 8][7] == 'r';
  }

  lemma OperatorSolid(s: string, i: nat)
    requires 0 < i <= |s| && !IsSpace(s[i - 1])
    ensures EndsWithOperator(s[..i]) <==> i >= 8 && OperatorAt(s, i - 8, i)
  {
    if i >= 8 {
      assert s[..i][i - 8..] == s[i - 8..i];
    }
  }

  lemma OperatorSpace(s: string, i: nat)
    requires 0 < i <= |s| && IsSpace(s[i - 1])
    ensures EndsWithOperator(s[..i]) <==> EndsWithOperator(s[..i - 1])
  {
    assert s[..i][..i - 1] == s[..i - 1];
  }

  lemma OperatorSpread(s: string, k: nat, i: nat)
    requires 0 < i <= |s| && IsSpace(s[i - 1])
    ensures OperatorAt(s, k, i - 1) ==> OperatorAt(s, k, i)
    ensures OperatorAt(s, k, i) && k + 8 < i ==> OperatorAt(s, k, i - 1)
  {
  }

  lemma {:induction false} OperatorFound(s: string, i: nat) returns (k: nat)
    requires i <= |s| && EndsWithOperator(s[..i])
    ensures OperatorAt(s, k, i)
    decreases i
  {
    if IsSpace(s[i - 1]) {
      OperatorSpace(s, i);
      hide EndsWithOperator, OperatorAt;
      k := OperatorFound(s, i - 1);
      OperatorSpread(s, k, i);
    } else {
      OperatorSolid(s, i);
      k := i - 8;
    }
  }

  lemma {:induction false} OperatorSearched(s: string, k: nat, i: nat)
    requires i <= |s| && OperatorAt(s, k, i)
    ensures EndsWithOperator(s[..i])
    decreases i
  {
    hide EndsWithOperator, OperatorAt;
    OperatorLength(s, k, i);
    OperatorEndsSolid(s, k, i);
    if k + 8 == i {
      OperatorSolid(s, i);
    } else {
      OperatorSpread(s, k, i);
      OperatorSearched(s, k, i - 1);
      OperatorSpace(s, i);
    }
  }

  /** The search finds exactly that. */
  lemma OperatorIff(s: string, i: nat)
    requires i <= |s|
    ensures EndsWithOperator(s[..i]) <==> OperatorBefore(s, i)
  {
    hide EndsWithOperator, OperatorAt;
    if EndsWithOperator(s[..i]) {
      var k := OperatorFound(s, i);
    }
    if k: nat :| OperatorAt(s, k, i) {
      OperatorSearched(s, k, i);
    }
  }

  lemma OperatorLength(s: string, k: nat, i: nat)
    requires i <= |s| && OperatorAt(s, k, i)
    ensures k + 8 <= i
  {
  }

  /** All lines laid end to end. */
  function Flat(lines: seq<string>): string {
    if lines == [] then [] else lines[0] + Flat(lines[1..])
  }

  /** Where line `l` starts in `Flat(lines)`. */
  function Offset(lines: seq<string>, l: nat): (o: nat)
    requires l <= |lines|
    ensures o <= |Flat(lines)|
  {
    if l == 0 then 0 else |lines[0]| + Offset(lines[1..], l - 1)
  }

  lemma {:induction false} OffsetNext(lines: seq<string>, l: nat)
    requires l < |lines|
    ensures Offset(lines, l + 1) == Offset(lines, l) + |lines[l]|
    ensures Flat(lines)[Offset(lines, l)..Offset(lines, l + 1)] == lines[l]
  {
    if l == 0 {
    } else {
      OffsetNext(lines[1..], l - 1);
    }
  }

  lemma {:induction false} OffsetEnd(lines: seq<string>)
    ensures Offset(lines, |lines|) == |Flat(lines)|
  {
    if lines == [] {
    } else {
      OffsetEnd(lines[1..]);
    }
  }

  lemma {:induction false} OffsetMonotone(lines: seq<string>, a: nat, b: nat)
    requires a < b <= |lines|
    ensures Offset(lines, a) + |lines[a]| <= Offset(lines, b)
    decreases b - a
  {
    OffsetNext(lines, a);
    if a + 1 >= b {
    } else {
      OffsetMonotone(lines, a + 1, b);
    }
  }

  /** A character position determines its line and column. */
  lemma PositionUnique(lines: seq<string>, a: nat, p: nat, b: nat, q: nat)
    requires a < |lines| && p < |lines[a]| && b < |lines| && q < |lines[b]|
    requires Offset(lines, a) + p == Offset(lines, b) + q
    ensures a == b && p == q
  {
    if a < b {
      OffsetMonotone(lines, a, b);
    } else if b < a {
      OffsetMonotone(lines, b, a);
    }
  }
}
