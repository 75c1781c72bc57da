/**
  The three bracket matchers agree: backward search finds the grammar's match, forward and backward
  search are inverse over a whole file, and `_GetTextInside` returns the text between the brackets.
 */
module BracketTheorems {
  import opened Prelude
  import opened CppText
  import opened BracketGrammar
  import ForwardScan
  import ForwardTheorems
  import opened BackwardScan

  // ----- Backward search -----

  /** The pending closers as the openers that the mirrored text would have pending. */
  function Turned(st: string): string {
    if st == [] then []
    else if Top(st) == '>' then Turned(Pop(st))
    else Push(Turned(Pop(st)), MirrorChar(Top(st)))
  }

  lemma {:induction false} TurnedBottom(st: string)
    requires st != [] && st[0] != '>'
    ensures Turned(st) != [] && DropAngles(st) != [] && DropAngles(st)[0] == st[0]
    ensures Turned(DropAngles(st)) == Turned(st)
    ensures Top(Turned(st)) == MirrorChar(Top(DropAngles(st)))
    ensures |Turned(st)| == 1 <==> |DropAngles(st)| == 1
    ensures Pop(Turned(st)) == Turned(Pop(DropAngles(st)))
    decreases |st|
  {
    if |st| > 1 {
      TurnedBottom(Pop(st));
    } else {
      assert Pop(st) == [];
    }
  }

  lemma TurnedPush(st: string, c: char)
    ensures Turned(Push(st, c)) == if c == '>' then Turned(st) else Push(Turned(st), MirrorChar(c))
  {
    PopPush(st, c);
  }

  lemma OperatorEnd(s: string)
    requires EndsWithOperator(s)
    ensures s != [] && !IsOpen(Top(s)) && !IsClose(Top(s))
  {
    if !IsSpace(Top(s)) {
      assert Top(s) == s[|s| - 8..][7];
    }
  }

  /** A skipped character is never a bracket. */
  lemma SkipIsNoBracket(line: string, i: nat)
    requires 0 < i < |line|
    requires (line[i] == '>' && SkippedAngle(line, i)) || (line[i] == '<' && line[i - 1] == '<')
    ensures !IsOpen(line[i - 1]) && !IsClose(line[i - 1])
  {
    if EndsWithOperator(line[..i]) {
      OperatorEnd(line[..i]);
    }
  }

  /** `m` shows, right to left and mirrored, the text that ends with the first `o + |line|` characters. */
  ghost predicate Shows(m: string, n: nat, o: nat, line: string) {
    |m| == n && o + |line| <= n && forall j :: 0 <= j < |line| ==> m[n - 1 - o - j] == MirrorChar(line[j])
  }

  /** One step of the backward scan is one or two steps of the plain machine on the mirrored text. */
  lemma BackStep(m: string, n: nat, o: nat, line: string, i: nat, st: string) returns (next: int, s: string)
    requires Shows(m, n, o, line) && |m| == n && o + |line| <= n
    requires i < |line| && st != [] && st[0] != '>' && Turned(st) != []
    ensures (ScanBack(line, i, st) == Found(i) && Plain(m, n - o - i - 1, Turned(st)) == Some(n - o - i))
            || (ScanBack(line, i, st) == Lost && Plain(m, n - o - i - 1, Turned(st)) == None)
            || (-1 <= next < i && s != [] && s[0] != '>' && Turned(s) != [] &&
                ScanBack(line, i, st) == ScanBack(line, next, s) &&
                Plain(m, n - o - i - 1, Turned(st)) == Plain(m, n - o - next - 1, Turned(s)))
  {
    hide Turned, EndsWithOperator, DropAngles, SkippedAngle;
    TurnedBottom(st);
    var c := line[i];
    next, s := i - 1, st;
    assert m[n - 1 - o - i] == MirrorChar(c);
    if IsClose(c) || (c == '>' && !SkippedAngle(line, i)) {
      TurnedPush(st, c);
      s := Push(st, c);
    } else if c == '>' || (c == '<' && i > 0 && line[i - 1] == '<') {
      SkippedNeedsLeft(line, i);
      SkipIsNoBracket(line, i);
      assert m[n - 1 - o - (i - 1)] == MirrorChar(line[i - 1]);
      next := i - 2;
    } else if c == '<' && Top(st) == '>' {
      AngleOnTop(st);
      s := Pop(st);
    } else if IsOpen(c) {
      s := Pop(DropAngles(st));
      if s != [] {
        TurnedBottom(s);
      }
    } else if c == ';' {
      s := DropAngles(st);
    }
  }

  /** With a real bracket at the bottom, the backward scan is the plain machine on the mirrored text. */
  lemma {:induction false} ScanBackIsPlain(m: string, n: nat, o: nat, line: string, i: int, st: string)
    requires Shows(m, n, o, line) && |m| == n && o + |line| <= n
    requires -1 <= i < |line| && st != [] && st[0] != '>'
    ensures Turned(st) != []
    ensures match ScanBack(line, i, st)
      case Found(p) => Plain(m, n - o - i - 1, Turned(st)) == Some(n - o - p)
      case Lost => Plain(m, n - o - i - 1, Turned(st)) == None
      case Unfinished(s) => s != [] && s[0] != '>' && Turned(s) != [] &&
                            Plain(m, n - o - i - 1, Turned(st)) == Plain(m, n - o, Turned(s))
    decreases i
  {
    TurnedBottom(st);
    if i == -1 {
    } else {
      hide *;
      var next, s := BackStep(m, n, o, line, i, st);
      if -1 <= next < i && s != [] && s[0] != '>' {
        ScanBackIsPlain(m, n, o, line, next, s);
      }
    }
  }

  lemma SkippedNeedsLeft(line: string, i: nat)
    requires i < |line|
    ensures SkippedAngle(line, i) ==> i > 0
  {
  }

  /** An angle bracket on top of a real one can be popped without effect. */
  lemma AngleOnTop(st: string)
    requires st != [] && st[0] != '>' && Top(st) == '>'
    ensures |st| > 1 && Pop(st)[0] == st[0] && Turned(Pop(st)) == Turned(st)
  {
  }

  lemma ShowsLine(lines: seq<string>, l: nat)
    requires l < |lines|
    ensures Shows(Mirror(Flat(lines)), |Flat(lines)|, Offset(lines, l), lines[l])
    ensures Offset(lines, l + 1) == Offset(lines, l) + |lines[l]| <= |Flat(lines)|
  {
    hide Flat, Offset;
    var t, o, line := Flat(lines), Offset(lines, l), lines[l];
    OffsetNext(lines, l);
    forall j | 0 <= j < |line|
      ensures Mirror(t)[|t| - 1 - o - j] == MirrorChar(line[j])
    {
      assert t[o + j] == t[o..o + |line|][j];
    }
  }

  lemma {:induction false} OpenFromIsPlain(lines: seq<string>, l: nat, i: int, st: string)
    requires l < |lines| && -1 <= i < |lines[l]| && st != [] && st[0] != '>'
    ensures Turned(st) != [] && Offset(lines, l) + i + 1 <= |Flat(lines)|
    ensures |Mirror(Flat(lines))| == |Flat(lines)|
    ensures Plain(Mirror(Flat(lines)), |Flat(lines)| - (Offset(lines, l) + i + 1), Turned(st)) ==
            match OpenFrom(lines, l, i, st)
            case Some((l2, p)) => Some(|Flat(lines)| - (Offset(lines, l2) + p))
            case None => None
    decreases l
  {
    hide Flat, Mirror, Turned, ScanBack, Shows;
    ShowsLine(lines, l);
    MirrorLength(Flat(lines));
    ScanBackIsPlain(Mirror(Flat(lines)), |Flat(lines)|, Offset(lines, l), lines[l], i, st);
    match ScanBack(lines[l], i, st)
    case Unfinished(s) =>
      if l > 0 {
        ShowsLine(lines, l - 1);
        OpenFromIsPlain(lines, l - 1, |lines[l - 1]| - 1, s);
      }
    case _ =>
  }

  lemma MirrorLength(t: string)
    ensures |Mirror(t)| == |t|
  {
  }

  lemma OpenIsPlain(lines: seq<string>, l: nat, q: nat)
    requires l < |lines| && q < |lines[l]| && IsClose(lines[l][q])
    ensures Offset(lines, l) + q < |Flat(lines)| == |Mirror(Flat(lines))|
    ensures var n, Q := |Flat(lines)|, Offset(lines, l) + q;
            Mirror(Flat(lines))[n - 1 - Q] == MirrorChar(lines[l][q]) &&
            Plain(Mirror(Flat(lines)), n - Q, [MirrorChar(lines[l][q])]) ==
            match OpenPosition(lines, l, q)
            case Some((l2, p)) => Some(n - (Offset(lines, l2) + p))
            case None => None
  {
    hide *;
    TurnedOne(lines[l][q]);
    FirstBackStep(lines, l, q);
    ForwardTheorems.CharAt(lines, l, q);
    MirrorAt(Flat(lines), Offset(lines, l) + q);
    OpenFromIsPlain(lines, l, q - 1, [lines[l][q]]);
  }

  lemma TurnedOne(c: char)
    requires IsClose(c)
    ensures Turned([c]) == [MirrorChar(c)] && c != '>'
  {
    TurnedPush([], c);
    assert Push([], c) == [c] && Push([], MirrorChar(c)) == [MirrorChar(c)];
  }

  lemma FirstBackStep(lines: seq<string>, l: nat, q: nat)
    requires l < |lines| && q < |lines[l]| && IsClose(lines[l][q])
    ensures OpenPosition(lines, l, q) == OpenFrom(lines, l, q - 1, [lines[l][q]])
  {
    hide DropAngles, SkippedAngle;
    assert Push([], lines[l][q]) == [lines[l][q]];
    assert ScanBack(lines[l], q, []) == ScanBack(lines[l], q - 1, [lines[l][q]]);
  }

  lemma MirrorAt(t: string, i: nat)
    requires i < |t|
    ensures |Mirror(t)| == |t| && Mirror(t)[|t| - 1 - i] == MirrorChar(t[i])
  {
  }

  lemma CloserTurns(c: char)
    requires IsClose(c)
    ensures IsOpen(MirrorChar(c)) && c != '>'
  {
  }

  /** From `)`, `]` or `}`, `ReverseCloseExpression` ends at `p` exactly when `p` is the matching opener. */
  lemma OpenIsMatch(lines: seq<string>, l: nat, q: nat, p: int)
    requires l < |lines| && q < |lines[l]| && IsClose(lines[l][q])
    ensures Matches(Flat(lines), p, Offset(lines, l) + q) <==>
            var r := OpenPosition(lines, l, q); r.Some? && Offset(lines, r.value.0) + r.value.1 == p
  {
    hide *;
    var t := Flat(lines);
    var n, Q := |t|, Offset(lines, l) + q;
    CloserTurns(lines[l][q]);
    OpenIsPlain(lines, l, q);
    PlainIsMatches(Mirror(t), n - 1 - Q, n - 1 - p);
    if Matches(t, p, Q) {
      MirrorMirrors(t);
      MatchesMirrored(t, Mirror(t), p, Q);
    }
    if Matches(Mirror(t), n - 1 - Q, n - 1 - p) {
      MatchesUnmirrored(t, p, Q);
    }
    OpenOffset(lines, l, q);
  }

  lemma OpenOffset(lines: seq<string>, l: nat, q: nat)
    requires l < |lines| && q < |lines[l]|
    ensures var r := OpenPosition(lines, l, q);
            r.Some? ==> Offset(lines, r.value.0) + r.value.1 < |Flat(lines)|
  {
    hide *;
    var r := OpenPosition(lines, l, q);
    if r.Some? {
      ForwardTheorems.CharAt(lines, r.value.0, r.value.1);
    }
  }

  // ----- Forward and backward search are inverse -----

  /** The closer that `CloseExpression` stops behind leads `ReverseCloseExpression` back, and conversely. */
  lemma CloseReverseInverse(lines: seq<string>, l: nat, p: nat, l2: nat, q: nat)
    requires l < |lines| && p < |lines[l]| && IsOpen(lines[l][p])
    requires l2 < |lines| && 0 < q <= |lines[l2]|
    ensures ForwardScan.ClosePosition(lines, l, p) == Some((l2, q)) <==>
            IsClose(lines[l2][q - 1]) && OpenPosition(lines, l2, q - 1) == Some((l, p))
  {
    hide *;
    var P, Q := Offset(lines, l) + p, Offset(lines, l2) + q - 1;
    ForwardTheorems.CloseIsMatch(lines, l, p, Q);
    ForwardTheorems.CharAt(lines, l2, q - 1);
    MatchEnds(Flat(lines), P, Q);
    var fwd := ForwardScan.ClosePosition(lines, l, p);
    if IsClose(lines[l2][q - 1]) {
      OpenIsMatch(lines, l2, q - 1, P);
      var back := OpenPosition(lines, l2, q - 1);
      if Matches(Flat(lines), P, Q) {
        PositionUnique(lines, fwd.value.0, fwd.value.1 - 1, l2, q - 1);
        PositionUnique(lines, back.value.0, back.value.1, l, p);
      }
    }
  }

  lemma MatchEnds(t: string, p: int, q: int)
    ensures Matches(t, p, q) ==> 0 <= p < q < |t| && IsOpen(t[p]) && IsClose(t[q])
  {
  }

  /** Without a closing bracket at the start the converse fails: the arrow is skipped with nothing pending. */
  lemma ArrowOpensEarlierBracket()
    ensures OpenPosition(["(a)->"], 0, 4) == Some((0, 0))
    ensures ForwardScan.ClosePosition(["(a)->"], 0, 0) != Some((0, 5))
  {
    var line := "(a)->";
    assert Push([], ')') == [')'] && Pop([')']) == [];
    assert ScanBack(line, 0, [')']) == Found(0);
    assert ScanBack(line, 1, [')']) == Found(0);
    assert ScanBack(line, 2, []) == Found(0);
    assert SkippedAngle(line, 4);
    if ForwardScan.ClosePosition([line], 0, 0) == Some((0, 5)) {
      CloseReverseInverse([line], 0, 0, 0, 5);
      assert false;
    }
  }

  // ----- _GetTextInside -----

  /** The text after the bracket at `start - 1` up to its match. */
  function TextInside(text: string, start: nat): (r: Option<string>)
    requires 0 < start <= |text| && IsOpen(text[start - 1])
  {
    match Plain(text, start, [text[start - 1]])
    case Some(e) => Some(text[start..e - 1])
    case None => None
  }

  /** The pending openers for which `expected` are the closers. */
  ghost predicate Awaits(expected: string, opens: string) {
    |expected| == |opens| && forall k :: 0 <= k < |opens| ==> IsOpen(opens[k]) && expected[k] == Closer(opens[k])
  }

  /** `start` is where the start pattern's match ends, if it matched. */
  method GetTextInside(text: string, start: Option<nat>) returns (r: Option<string>)
    requires start.Some? ==> 0 < start.value <= |text| && IsOpen(text[start.value - 1])
    ensures r == if start.Some? then TextInside(text, start.value) else None
  {
    if start.None? {
      return None;
    }
    var position := start.value;
    var stack := [Closer(text[position - 1])];
    ghost var opens := [text[position - 1]];
    ghost var goal := Plain(text, position, opens);
    while stack != [] && position < |text|
      invariant start.value <= position <= |text| && Awaits(stack, opens)
      invariant if stack == [] then goal == Some(position) else goal == Plain(text, position, opens)
      decreases |text| - position
    {
      var c := text[position];
      if c == Top(stack) {
        opens := Pop(opens);
        stack := Pop(stack);
      } else if IsClose(c) {
        return None;
      } else if IsOpen(c) {
        opens := Push(opens, c);
        stack := Push(stack, Closer(c));
      }
      position := position + 1;
    }
    if stack != [] {
      return None;
    }
    return Some(text[start.value..position - 1]);
  }

  /** `_GetTextInside` succeeds exactly on matched brackets and returns what they enclose. */
  lemma TextInsideIsMatch(text: string, start: nat, q: int)
    requires 0 < start <= |text| && IsOpen(text[start - 1])
    ensures Matches(text, start - 1, q) ==> TextInside(text, start) == Some(text[start..q])
    ensures TextInside(text, start).Some? ==> Matches(text, start - 1, start + |TextInside(text, start).value|)
  {
    PlainIsMatches(text, start - 1, q);
    var e := Plain(text, start, [text[start - 1]]);
    if e.Some? {
      PlainIsMatches(text, start - 1, e.value - 1);
    }
  }

  /** On one line `CloseExpression` and `_GetTextInside` succeed and fail together, on the same text. */
  lemma CloseAgreesWithTextInside(line: string, p: nat)
    requires p < |line| && IsOpen(line[p])
    ensures match ForwardScan.ClosePosition([line], 0, p)
      case Some((l, e)) => l == 0 && p + 1 < e <= |line| && TextInside(line, p + 1) == Some(line[p + 1..e - 1])
      case None => TextInside(line, p + 1) == None
  {
    ForwardTheorems.CloseIsPlain([line], 0, p);
    assert Flat([line]) == line;
  }
}
