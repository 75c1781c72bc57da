/**
  What it means for a bracket to match another: the grammar of balanced text over `()`, `[]`, `{}`,
  stated without any scanner, and the plain one-stack machine that decides it.
 */
module BracketGrammar {
  import opened Prelude

  predicate IsOpen(c: char) {
    c == '(' || c == '[' || c == '{'
  }

  predicate IsClose(c: char) {
    c == ')' || c == ']' || c == '}'
  }

  function Closer(c: char): char
    requires IsOpen(c)
  {
    if c == '(' then ')' else if c == '[' then ']' else '}'
  }

  /**
    `t[i..k]` is in the language B ::= empty | x B | ( B ) B | [ B ] B | { B } B,
    where x is any character that is not a bracket.
   */
  ghost predicate Balanced(t: string, i: nat, k: nat)
    requires i <= k <= |t|
    decreases k - i
  {
    if i == k then true
    else if IsOpen(t[i]) then
      exists m :: i < m < k && t[m] == Closer(t[i]) && Balanced(t, i + 1, m) && Balanced(t, m + 1, k)
    else !IsClose(t[i]) && Balanced(t, i + 1, k)
  }

  /** The bracket at `q` closes the one at `p`. */
  ghost predicate Matches(t: string, p: int, q: int) {
    0 <= p < q < |t| && IsOpen(t[p]) && t[q] == Closer(t[p]) && Balanced(t, p + 1, q)
  }

  function Push(st: string, c: char): string {
    st + [c]
  }

  function Pop(st: string): string
    requires st != []
  {
    st[..|st| - 1]
  }

  function Top(st: string): char
    requires st != []
  {
    st[|st| - 1]
  }

  lemma PopPush(st: string, c: char)
    ensures Pop(Push(st, c)) == st && Top(Push(st, c)) == c
  {
  }

  /** Reads `t` from `i` with pending openers `st`; the index just past the closer that empties `st`. */
  function Plain(t: string, i: nat, st: string): (r: Option<nat>)
    requires i <= |t| && st != []
    ensures r.Some? ==> i < r.value <= |t|
    decreases |t| - i
  {
    if i == |t| then None
    else if IsOpen(t[i]) then Plain(t, i + 1, Push(st, t[i]))
    else if !IsClose(t[i]) then Plain(t, i + 1, st)
    else if !IsOpen(Top(st)) || Closer(Top(st)) != t[i] then None
    else if |st| == 1 then Some(i + 1)
    else Plain(t, i + 1, Pop(st))
  }

  /** The machine crosses balanced text without touching its stack. */
  lemma {:induction false} PlainSkips(t: string, i: nat, k: nat, st: string)
    requires i <= k <= |t| && st != [] && Balanced(t, i, k)
    ensures Plain(t, i, st) == Plain(t, k, st)
    decreases k - i
  {
    if i == k {
    } else {
      if IsOpen(t[i]) {
        var m :| i < m < k && t[m] == Closer(t[i]) && Balanced(t, i + 1, m) && Balanced(t, m + 1, k);
        PlainSkips(t, i + 1, m, Push(st, t[i]));
        PopPush(st, t[i]);
        PlainSkips(t, m + 1, k, st);
      } else {
        PlainSkips(t, i + 1, k, st);
      }
    }
  }

  /** Where the machine succeeds, the top bracket is closed after balanced text. */
  lemma {:induction false} PlainFinds(t: string, i: nat, st: string) returns (k: nat)
    requires i <= |t| && st != [] && Plain(t, i, st).Some?
    ensures i <= k < |t| && Balanced(t, i, k) && IsOpen(Top(st)) && t[k] == Closer(Top(st))
    ensures if |st| == 1 then Plain(t, i, st) == Some(k + 1)
            else Plain(t, k + 1, Pop(st)) == Plain(t, i, st)
    decreases |t| - i
  {
    if IsOpen(t[i]) {
      PopPush(st, t[i]);
      var m := PlainFinds(t, i + 1, Push(st, t[i]));
      k := PlainFinds(t, m + 1, st);
    } else if !IsClose(t[i]) {
      k := PlainFinds(t, i + 1, st);
    } else {
      k := i;
    }
  }

  /** The machine started on one opener decides `Matches`. */
  lemma PlainIsMatches(t: string, p: nat, q: int)
    requires p < |t| && IsOpen(t[p])
    ensures (0 <= q && Plain(t, p + 1, [t[p]]) == Some(q + 1)) <==> Matches(t, p, q)
  {
    if Matches(t, p, q) {
      PlainSkips(t, p + 1, q, [t[p]]);
    } else if 0 <= q && Plain(t, p + 1, [t[p]]) == Some(q + 1) {
      var k := PlainFinds(t, p + 1, [t[p]]);
    }
  }

  lemma {:induction false} BalancedConcat(t: string, i: nat, m: nat, k: nat)
    requires i <= m <= k <= |t| && Balanced(t, i, m) && Balanced(t, m, k)
    ensures Balanced(t, i, k)
    decreases m - i
  {
    if i == m {
    } else {
      if IsOpen(t[i]) {
        var j :| i < j < m && t[j] == Closer(t[i]) && Balanced(t, i + 1, j) && Balanced(t, j + 1, m);
        BalancedConcat(t, j + 1, m, k);
      } else {
        BalancedConcat(t, i + 1, m, k);
      }
    }
  }

  function MirrorChar(c: char): char {
    if c == '(' then ')' else if c == ')' then '('
    else if c == '[' then ']' else if c == ']' then '['
    else if c == '{' then '}' else if c == '}' then '{' else c
  }

  /** The text read right to left with every bracket turned round. */
  function Mirror(s: string): string {
    seq(|s|, i requires 0 <= i < |s| => MirrorChar(s[|s| - 1 - i]))
  }

  /** `m` holds, from the right, what `t` holds from the left. */
  ghost predicate Mirrors(t: string, m: string) {
    |m| == |t| && forall i :: 0 <= i < |t| ==> m[|t| - 1 - i] == MirrorChar(t[i])
  }

  lemma MirrorMirrors(t: string)
    ensures Mirrors(t, Mirror(t))
  {
  }

  lemma MirrorsBack(t: string)
    ensures Mirrors(Mirror(t), t)
  {
    forall i | 0 <= i < |t|
      ensures t[|t| - 1 - i] == MirrorChar(Mirror(t)[i])
    {
      assert Mirror(t)[i] == MirrorChar(t[|t| - 1 - i]);
    }
  }

  lemma BalancedPair(t: string, i: nat, k: nat)
    requires i + 1 < k <= |t| && IsOpen(t[i]) && t[k - 1] == Closer(t[i]) && Balanced(t, i + 1, k - 1)
    ensures Balanced(t, i, k)
  {
    assert Balanced(t, k, k);
  }

  lemma BalancedFirst(t: string, i: nat, k: nat) returns (j: nat)
    requires i < k <= |t| && Balanced(t, i, k)
    ensures !IsClose(t[i])
    ensures IsOpen(t[i]) ==> i < j < k && t[j] == Closer(t[i]) && Balanced(t, i + 1, j) && Balanced(t, j + 1, k)
    ensures !IsOpen(t[i]) ==> j == i && Balanced(t, i + 1, k)
  {
    j := i;
    if IsOpen(t[i]) {
      j :| i < j < k && t[j] == Closer(t[i]) && Balanced(t, i + 1, j) && Balanced(t, j + 1, k);
    }
  }

  lemma {:induction false} BalancedMirror(t: string, m: string, i: nat, k: nat)
    requires Mirrors(t, m) && i <= k <= |t| && Balanced(t, i, k)
    ensures Balanced(m, |t| - k, |t| - i)
    decreases k - i
  {
    if i == k {
      BalancedNothing(m, |t| - k);
    } else {
      var j := BalancedFirst(t, i, k);
      MirroredChars(t[i]);
      MirroredAt(t, m, i);
      MirroredAt(t, m, j);
      hide Balanced, Mirrors, MirrorChar, IsOpen, IsClose, Closer;
      if IsOpen(t[i]) {
        BalancedMirror(t, m, i + 1, j);
        BalancedMirror(t, m, j + 1, k);
        MirroredGroup(m, |t| - k, |t| - 1 - j, |t| - i);
      } else {
        BalancedMirror(t, m, i + 1, k);
        MirroredText(m, |t| - k, |t| - i);
      }
    }
  }

  lemma MirroredAt(t: string, m: string, i: nat)
    requires Mirrors(t, m) && i < |t|
    ensures |m| == |t| && m[|t| - 1 - i] == MirrorChar(t[i])
  {
  }

  lemma MirroredChars(c: char)
    ensures IsOpen(c) ==> IsOpen(MirrorChar(Closer(c))) && MirrorChar(c) == Closer(MirrorChar(Closer(c)))
    ensures !IsOpen(c) && !IsClose(c) ==> !IsOpen(MirrorChar(c)) && !IsClose(MirrorChar(c))
  {
  }

  lemma BalancedNothing(t: string, i: nat)
    requires i <= |t|
    ensures Balanced(t, i, i)
  {
  }

  lemma MirroredGroup(m: string, i: nat, j: nat, k: nat)
    requires i <= j && j + 1 < k <= |m| && Balanced(m, i, j) && Balanced(m, j + 1, k - 1)
    requires IsOpen(m[j]) && m[k - 1] == Closer(m[j])
    ensures Balanced(m, i, k)
  {
    BalancedPair(m, j, k);
    BalancedConcat(m, i, j, k);
  }

  lemma MirroredText(m: string, i: nat, k: nat)
    requires i < k <= |m| && Balanced(m, i, k - 1) && !IsOpen(m[k - 1]) && !IsClose(m[k - 1])
    ensures Balanced(m, i, k)
  {
    assert Balanced(m, k, k);
    BalancedConcat(m, i, k - 1, k);
  }

  lemma MatchesMirrored(t: string, m: string, p: int, q: int)
    requires Mirrors(t, m) && Matches(t, p, q)
    ensures Matches(m, |t| - 1 - q, |t| - 1 - p)
  {
    BalancedMirror(t, m, p + 1, q);
  }

  lemma MatchesUnmirrored(t: string, p: int, q: int)
    requires Matches(Mirror(t), |t| - 1 - q, |t| - 1 - p)
    ensures Matches(t, p, q)
  {
    MirrorsBack(t);
    MatchesMirrored(Mirror(t), t, |t| - 1 - q, |t| - 1 - p);
  }

  /** An opener has at most one closer and a closer at most one opener. */
  lemma MatchUnique(t: string, p: int, q: int, p': int, q': int)
    requires Matches(t, p, q) && Matches(t, p', q')
    ensures p == p' <==> q == q'
  {
    if p == p' {
      PlainIsMatches(t, p, q);
      PlainIsMatches(t, p, q');
    }
    if q == q' {
      MirrorMirrors(t);
      MatchesMirrored(t, Mirror(t), p, q);
      MatchesMirrored(t, Mirror(t), p', q);
      PlainIsMatches(Mirror(t), |t| - 1 - q, |t| - 1 - p);
      PlainIsMatches(Mirror(t), |t| - 1 - q, |t| - 1 - p');
    }
  }
}
