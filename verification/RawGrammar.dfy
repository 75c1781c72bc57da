/**
  What a line without its raw strings is, as a relation between the two texts: each literal, from its
  prefix to the terminator that repeats its delimiter, becomes `""`, and nothing else changes.
 */
module RawGrammar {
  import opened Prelude
  import opened CppText
  import opened RawStrings

  /** R, u8R, uR, UR or LR. */
  predicate Encoding(p: string) {
    p == "R" || p == "u8R" || p == "uR" || p == "UR" || p == "LR"
  }

  /** A raw string begins at `k`: prefix of length `n`, quote, delimiter, and a parenthesis at `m`. */
  predicate RawStart(line: string, k: nat, n: nat, m: nat) {
    k + n < m < |line| && (k == 0 || !IsWordChar(line[k - 1])) && Encoding(line[k..k + n]) && line[k + n] == '"' &&
    line[m] == '(' &&
    forall x :: k + n < x < m ==> !IsSpace(line[x]) && line[x] != '\\' && line[x] != '(' && line[x] != ')'
  }

  ghost predicate FirstStart(line: string, k: nat, n: nat, m: nat) {
    RawStart(line, k, n, m) && forall k2: nat, n2: nat, m2: nat :: k2 < k ==> !RawStart(line, k2, n2, m2)
  }

  /** The text that ends a raw string with delimiter `d`. */
  function Ending(d: string): string {
    ")" + d + "\""
  }

  predicate OccursAt(s: string, pat: string, e: nat) {
    e + |pat| <= |s| && s[e..e + |pat|] == pat
  }

  /** The first occurrence of `pat` from `i` on. */
  predicate FoundAt(s: string, pat: string, i: nat, e: nat) {
    i <= e && OccursAt(s, pat, e) && forall x :: i <= x < e ==> !OccursAt(s, pat, x)
  }

  /** The string whose parenthesis stands at `m` ends at `e`. */
  predicate EndsRaw(line: string, end: string, m: nat, e: nat) {
    FoundAt(line, end, m + 1, e)
  }

  /** `out` is the line with its raw strings emptied; `wait` is the ending of one that goes on behind the line. */
  ghost predicate Strips(line: string, commented: string -> bool, out: string, wait: Option<string>)
    decreases |line|
  {
    if forall k: nat, n: nat, m: nat :: !RawStart(line, k, n, m) then out == line && wait == None
    else exists k: nat, n: nat, m: nat :: FirstStart(line, k, n, m) && StripsAt(line, commented, k, n, m, out, wait)
  }

  ghost predicate StripsAt(line: string, commented: string -> bool, k: nat, n: nat, m: nat, out: string, wait: Option<string>)
    requires RawStart(line, k, n, m)
    decreases |line|, 0
  {
    var end := Ending(line[k + n + 1..m]);
    if commented(line[..k]) then out == line && wait == None
    else if exists e: nat :: EndsRaw(line, end, m, e) then
      exists e: nat :: EndsRaw(line, end, m, e) &&
                       Strips(line[..k] + "\"\"" + line[e + |end|..], commented, out, wait)
    else out == line[..k] + "\"\"" && wait == Some(end)
  }

  // ----- The pattern -----

  lemma PrefixIs(line: string, k: nat, n: nat)
    requires k + n < |line| && line[k + n] == '"'
    ensures Encoding(line[k..k + n]) <==> n > 0 && n == PrefixLength(line, k)
  {
    var p := line[k..k + n];
    assert n > 0 ==> p[0] == line[k];
    assert n > 1 ==> p[1] == line[k + 1];
    assert n > 2 ==> p[2] == line[k + 2];
    if Encoding(p) {
      assert 1 <= |p| <= 3;
    }
    if n == 1 && line[k] == 'R' {
      assert p == "R";
    } else if n == 2 && n == PrefixLength(line, k) {
      assert p == [line[k], 'R'];
    } else if n == 3 && n == PrefixLength(line, k) {
      assert p == "u8R";
    }
  }

  lemma {:induction false} DelimiterIs(line: string, i: nat)
    requires i <= |line|
    ensures var m := DelimiterEnd(line, i);
            (forall x :: i <= x < m ==> DelimiterChar(line[x])) && (m < |line| ==> !DelimiterChar(line[m]))
    decreases |line| - i
  {
    if i < |line| && DelimiterChar(line[i]) {
      DelimiterIs(line, i + 1);
    }
  }

  lemma RawAtOne(line: string, k: nat, n: nat, m: nat)
    requires k <= |line|
    ensures RawStart(line, k, n, m) <==> RawAt(line, k) == Some(Raw(k, k + n + 1, m))
  {
    var p := PrefixLength(line, k);
    if k + n < |line| && line[k + n] == '"' {
      PrefixIs(line, k, n);
    }
    if k + p + 1 <= |line| {
      DelimiterIs(line, k + p + 1);
    }
    hide PrefixLength, DelimiterEnd, Encoding;
    if RawStart(line, k, n, m) {
      assert forall x :: k + n < x < m ==> DelimiterChar(line[x]);
      assert !DelimiterChar(line[m]);
    }
  }

  // ----- The one stripped form -----

  lemma {:induction false} FindIs(s: string, pat: string, i: nat)
    requires i <= |s|
    ensures match Find(s, pat, i)
      case Some(e) => FoundAt(s, pat, i, e)
      case None => forall e: nat :: i <= e ==> !OccursAt(s, pat, e)
    decreases |s| - i
  {
    if OccursAt(s, pat, i) {
    } else if i < |s| {
      FindIs(s, pat, i + 1);
    } else {
      assert pat != [] by { assert s[i..i] == []; }
    }
  }

  lemma FoundOnce(s: string, pat: string, i: nat, e: nat, f: nat)
    requires FoundAt(s, pat, i, e) && FoundAt(s, pat, i, f)
    ensures e == f
  {
  }

  /** Searching behind the parenthesis or in the rest of the line is the same. */
  lemma FindEnd(line: string, end: string, m: nat)
    requires m < |line|
    ensures match Find(line[m + 1..], end, 0)
      case Some(e) => EndsRaw(line, end, m, m + 1 + e) && forall x: nat :: EndsRaw(line, end, m, x) ==> x == m + 1 + e
      case None => forall x: nat :: !EndsRaw(line, end, m, x)
  {
    var body := line[m + 1..];
    FindIs(body, end, 0);
    hide Find, OccursAt;
    forall x: nat | m + 1 <= x ensures OccursAt(line, end, x) <==> OccursAt(body, end, x - m - 1) {
      OccursShift(line, end, m + 1, x);
    }
    if Find(body, end, 0).Some? {
      var e := Find(body, end, 0).value;
      assert OccursAt(line, end, m + 1 + e);
      forall x: nat | EndsRaw(line, end, m, x) ensures x == m + 1 + e {
        FoundOnce(line, end, m + 1, m + 1 + e, x);
      }
    }
  }

  lemma OccursShift(line: string, pat: string, i: nat, x: nat)
    requires i <= x && i <= |line|
    ensures OccursAt(line, pat, x) <==> OccursAt(line[i..], pat, x - i)
  {
    if x + |pat| <= |line| {
      assert line[x..x + |pat|] == line[i..][x - i..x - i + |pat|];
    }
  }

  /** Stripping gives the one text that is the line without its raw strings, and the one ending waited for. */
  lemma {:induction false} StripsIff(line: string, commented: string -> bool, out: string, wait: Option<string>)
    ensures Strips(line, commented, out, wait) <==> (out, wait) == StripLine(line, commented)
    decreases |line|, 1
  {
    FirstRawIs(line);
    var f := FirstRaw(line, 0);
    if f.None? {
      hide FirstRaw, RawStart, FirstStart, StripsAt;
    } else {
      hide *;
      var k, n, m := f.value.start, f.value.delimiter - f.value.start - 1, f.value.paren;
      StripsFirst(line, commented, out, wait, k, n, m);
      StripsAtIff(line, commented, out, wait, k, n, m);
    }
  }

  lemma StripsFirst(line: string, commented: string -> bool, out: string, wait: Option<string>, k: nat, n: nat, m: nat)
    requires FirstStart(line, k, n, m)
    requires forall k2: nat, n2: nat, m2: nat :: FirstStart(line, k2, n2, m2) ==> k2 == k && n2 == n && m2 == m
    ensures RawStart(line, k, n, m)
    ensures Strips(line, commented, out, wait) <==> StripsAt(line, commented, k, n, m, out, wait)
  {
    hide RawStart, StripsAt;
    assert !forall k: nat, n: nat, m: nat :: !RawStart(line, k, n, m);
  }

  lemma {:induction false} StripsAtIff(line: string, commented: string -> bool, out: string, wait: Option<string>,
                                       k: nat, n: nat, m: nat)
    requires FirstRaw(line, 0) == Some(Raw(k, k + n + 1, m)) && RawStart(line, k, n, m)
    ensures StripsAt(line, commented, k, n, m, out, wait) <==> (out, wait) == StripLine(line, commented)
    decreases |line|, 0
  {
    hide *;
    StartInside(line, k, n, m);
    var end := Ending(line[k + n + 1..m]);
    EndingLength(line[k + n + 1..m]);
    FindEnd(line, end, m);
    var found := Find(line[m + 1..], end, 0);
    StripIs(line, commented, k, n, m, end, found);
    if commented(line[..k]) || found.None? {
      StripsAtEnd(line, commented, k, n, m, out, wait, end);
    } else {
      var e := m + 1 + found.value;
      StripsAtOn(line, commented, k, n, m, out, wait, end, e);
      StripsIff(line[..k] + "\"\"" + line[e + |end|..], commented, out, wait);
    }
  }

  lemma StartInside(line: string, k: nat, n: nat, m: nat)
    requires RawStart(line, k, n, m)
    ensures k + n < m < |line| && n > 0
  {
  }

  lemma EndingLength(d: string)
    ensures |Ending(d)| == |d| + 2
  {
  }

  /** What the code does at the first raw string of a line. */
  lemma StripIs(line: string, commented: string -> bool, k: nat, n: nat, m: nat, end: string, found: Option<nat>)
    requires k + n < m < |line| && FirstRaw(line, 0) == Some(Raw(k, k + n + 1, m))
    requires end == Ending(line[k + n + 1..m]) && found == Find(line[m + 1..], end, 0)
    ensures found.Some? ==> m + 1 + found.value + |end| <= |line|
    ensures StripLine(line, commented) ==
            if commented(line[..k]) then (line, None)
            else if found.None? then (line[..k] + "\"\"", Some(end))
            else StripLine(line[..k] + "\"\"" + line[m + 1 + found.value + |end|..], commented)
  {
    hide *;
    var r := Raw(k, k + n + 1, m);
    TerminatorIs(line, k, n, m);
    if commented(line[..k]) {
      StripCommented(line, commented, r);
      StripDone(line, commented);
    } else if found.None? {
      StripOpen(line, commented, r, end);
      StripDone(line, commented);
    } else {
      FoundInside(line, m, end, found.value);
      EndingLength(line[k + n + 1..m]);
      StripClosed(line, commented, r, end, found.value);
      ReplacedIs(line, r, end, found.value);
      StripDone(line, commented);
    }
  }

  lemma StripDone(line: string, commented: string -> bool)
    ensures StripLine(line, commented) ==
            var s := StripStep(line, commented); if s.Done? then (s.line, s.wait) else StripLine(s.next, commented)
  {
    hide StripStep;
  }

  lemma TerminatorIs(line: string, k: nat, n: nat, m: nat)
    requires k + n < m <= |line|
    ensures Terminator(line, Raw(k, k + n + 1, m)) == Ending(line[k + n + 1..m])
  {
  }

  lemma StripCommented(line: string, commented: string -> bool, r: Raw)
    requires FirstRaw(line, 0) == Some(r) && commented(line[..r.start])
    ensures StripStep(line, commented) == Done(line, None)
  {
    hide FirstRaw, Find;
  }

  lemma StripOpen(line: string, commented: string -> bool, r: Raw, end: string)
    requires FirstRaw(line, 0) == Some(r) && !commented(line[..r.start]) && r.delimiter <= r.paren < |line|
    requires Terminator(line, r) == end && Find(line[r.paren + 1..], end, 0) == None
    ensures StripStep(line, commented) == Done(line[..r.start] + "\"\"", Some(end))
  {
    hide FirstRaw, Find, Terminator;
  }

  lemma StripClosed(line: string, commented: string -> bool, r: Raw, end: string, e: nat)
    requires FirstRaw(line, 0) == Some(r) && !commented(line[..r.start]) && r.start < r.delimiter <= r.paren < |line|
    requires Terminator(line, r) == end && Find(line[r.paren + 1..], end, 0) == Some(e)
    requires r.paren + 1 + e + |end| <= |line| && |end| > 1
    ensures StripStep(line, commented) == Again(Replaced(line, r, end, e))
  {
    hide *;
    StripTakes(line, commented, r);
    StripsAway(line, r, end, e);
  }

  lemma StripTakes(line: string, commented: string -> bool, r: Raw)
    requires FirstRaw(line, 0) == Some(r) && !commented(line[..r.start]) && r.start < r.delimiter <= r.paren < |line|
    ensures StripStep(line, commented) == StripAt(line, r)
  {
    hide FirstRaw, StripAt;
  }

  lemma StripsAway(line: string, r: Raw, end: string, e: nat)
    requires r.start < r.delimiter <= r.paren < |line| && r.paren + 1 + e + |end| <= |line| && |end| > 1
    requires Terminator(line, r) == end && Find(line[r.paren + 1..], end, 0) == Some(e)
    ensures StripAt(line, r) == Again(Replaced(line, r, end, e))
  {
    hide Find, Terminator, Replaced;
  }

  lemma FoundInside(line: string, m: nat, end: string, e: nat)
    requires m < |line| && Find(line[m + 1..], end, 0) == Some(e)
    ensures m + 1 + e + |end| <= |line|
  {
    hide Find;
  }

  lemma ReplacedIs(line: string, r: Raw, end: string, e: nat)
    requires r.start < r.delimiter <= r.paren < |line| && r.paren + 1 + e + |end| <= |line| && |end| > 1
    ensures Replaced(line, r, end, e) == line[..r.start] + "\"\"" + line[r.paren + 1 + e + |end|..]
  {
    assert line[r.paren + 1..][e + |end|..] == line[r.paren + 1 + e + |end|..];
  }

  lemma StripsAtEnd(line: string, commented: string -> bool, k: nat, n: nat, m: nat, out: string, wait: Option<string>,
                    end: string)
    requires k + n < m < |line| && RawStart(line, k, n, m) && end == Ending(line[k + n + 1..m])
    requires commented(line[..k]) || forall e: nat :: !EndsRaw(line, end, m, e)
    ensures StripsAt(line, commented, k, n, m, out, wait) <==>
            if commented(line[..k]) then out == line && wait == None
            else out == line[..k] + "\"\"" && wait == Some(end)
  {
    hide RawStart, EndsRaw, Ending, Strips;
  }

  lemma StripsAtOn(line: string, commented: string -> bool, k: nat, n: nat, m: nat, out: string, wait: Option<string>,
                   end: string, e: nat)
    requires k + n < m < |line| && RawStart(line, k, n, m) && !commented(line[..k]) && end == Ending(line[k + n + 1..m])
    requires EndsRaw(line, end, m, e) && forall x: nat :: EndsRaw(line, end, m, x) ==> x == e
    ensures e + |end| <= |line| && m < e
    ensures StripsAt(line, commented, k, n, m, out, wait) <==>
            Strips(line[..k] + "\"\"" + line[e + |end|..], commented, out, wait)
  {
    hide RawStart, EndsRaw, Ending, Strips;
    EndsInside(line, end, m, e);
  }

  lemma EndsInside(line: string, end: string, m: nat, e: nat)
    requires EndsRaw(line, end, m, e)
    ensures e + |end| <= |line| && m < e
  {
  }

  /** The first raw string that the code finds is the first one in the line. */
  lemma FirstRawIs(line: string)
    ensures match FirstRaw(line, 0)
      case Some(r) => r.start + 1 < r.delimiter && FirstStart(line, r.start, r.delimiter - r.start - 1, r.paren) &&
                      forall k: nat, n: nat, m: nat :: FirstStart(line, k, n, m) ==> Raw(k, k + n + 1, m) == r
      case None => forall k: nat, n: nat, m: nat :: !RawStart(line, k, n, m)
  {
    forall k: nat, n: nat, m: nat | k <= |line|
      ensures RawStart(line, k, n, m) <==> RawAt(line, k) == Some(Raw(k, k + n + 1, m))
    {
      RawAtOne(line, k, n, m);
    }
    var f := FirstRaw(line, 0);
    if f.Some? {
      RawShape(line, f.value.start);
      assert RawStart(line, f.value.start, f.value.delimiter - f.value.start - 1, f.value.paren);
    }
    hide RawAt, FirstRaw;
    forall k: nat, n: nat, m: nat | RawStart(line, k, n, m) ensures k < |line| { }
    hide RawStart;
  }

  lemma RawShape(line: string, k: nat)
    requires k <= |line| && RawAt(line, k).Some?
    ensures k + 1 < RawAt(line, k).value.delimiter
  {
  }

  // ----- Lines inside a raw string -----

  /** The first `a` characters are all the space that the line begins with. */
  predicate Indent(line: string, a: nat) {
    a <= |line| && (forall i :: 0 <= i < a ==> IsSpace(line[i])) && (a < |line| ==> !IsSpace(line[a]))
  }

  /**
    The next line: inside a raw string it becomes `""` until the ending comes, and is then its indentation,
    `""` and the stripped rest.
   */
  ghost predicate NextStrips(line: string, waiting: Option<string>, commented: string -> bool, out: string, wait: Option<string>) {
    match waiting
    case None => Strips(line, commented, out, wait)
    case Some(end) =>
      if exists e: nat :: FoundAt(line, end, 0, e) then
        exists e: nat, a: nat :: FoundAt(line, end, 0, e) && Indent(line, a) &&
                                 Strips(line[..a] + "\"\"" + line[e + |end|..], commented, out, wait)
      else out == "\"\"" && wait == waiting
  }

  lemma {:induction false} LeadingIs(line: string)
    ensures LeadingSpace(line) == line[..|LeadingSpace(line)|] && Indent(line, |LeadingSpace(line)|)
  {
    if line == [] || !IsSpace(line[0]) {
    } else {
      LeadingIs(line[1..]);
      var n := |LeadingSpace(line[1..])|;
      assert line[..n + 1] == [line[0]] + line[1..][..n];
      assert forall i :: 0 < i <= n ==> line[i] == line[1..][i - 1];
    }
  }

  lemma IndentUnique(line: string, a: nat, b: nat)
    requires Indent(line, a) && Indent(line, b)
    ensures a == b
  {
    assert a < |line| ==> !IsSpace(line[a]);
    assert b < |line| ==> !IsSpace(line[b]);
  }

  lemma NextIff(line: string, waiting: Option<string>, commented: string -> bool, out: string, wait: Option<string>)
    ensures NextStrips(line, waiting, commented, out, wait) <==> (out, wait) == NextLine(line, waiting, commented)
  {
    hide Strips, StripLine, FoundAt, Indent, Find;
    match waiting
    case None => StripsIff(line, commented, out, wait);
    case Some(end) =>
      FindIs(line, end, 0);
      var found := Find(line, end, 0);
      if found.None? {
        NothingFound(line, end);
      } else {
        var e, a := found.value, |LeadingSpace(line)|;
        LeadingIs(line);
        StripsIff(line[..a] + "\"\"" + line[e + |end|..], commented, out, wait);
        forall x: nat, b: nat | FoundAt(line, end, 0, x) && Indent(line, b) ensures x == e && b == a {
          FoundOnce(line, end, 0, e, x);
          IndentUnique(line, a, b);
        }
      }
  }

  lemma NothingFound(line: string, pat: string)
    requires forall e: nat :: !OccursAt(line, pat, e)
    ensures forall e: nat :: !FoundAt(line, pat, 0, e)
  {
  }

  /** The cleansed file, line by line, with the ending waited for carried along. */
  ghost predicate FileStrips(lines: seq<string>, waiting: Option<string>, commented: string -> bool, outs: seq<string>) {
    if lines == [] then outs == []
    else outs != [] && exists wait :: NextStrips(lines[0], waiting, commented, outs[0], wait) &&
                                      FileStrips(lines[1..], wait, commented, outs[1..])
  }

  /** `CleanseRawStrings` gives the one cleansed form of a file. */
  lemma {:induction false} FileIff(lines: seq<string>, waiting: Option<string>, commented: string -> bool, outs: seq<string>)
    ensures FileStrips(lines, waiting, commented, outs) <==> outs == Cleanse(lines, waiting, commented)
  {
    if lines == [] {
    } else {
      hide NextStrips, NextLine;
      var (out, next) := NextLine(lines[0], waiting, commented);
      if outs != [] {
        forall wait ensures NextStrips(lines[0], waiting, commented, outs[0], wait) <==> outs[0] == out && wait == next {
          NextIff(lines[0], waiting, commented, outs[0], wait);
        }
        FileIff(lines[1..], next, commented, outs[1..]);
        assert outs == [outs[0]] + outs[1..];
      }
    }
  }
}
