/**
  `ReverseCloseExpression` from '>' against the same grammar, on the file read from the right: the
  backward scan, skips included, is the forward machine on the turned text.
 */
module ReverseAngles {
  import opened Prelude
  import opened CppText
  import opened BracketGrammar
  import opened ForwardScan
  import opened ForwardTheorems
  import opened AngleGrammar
  import opened AngleTheorems
  import Back = BackwardScan

  /** What a character is to the forward machine on the turned text. */
  ghost function BackToken(line: string, i: nat): Token
    requires i < |line|
  {
    var c := line[i];
    if IsClose(c) then Open(MirrorChar(c))
    else if IsOpen(c) then Close(MirrorChar(c))
    else match BackMarkAt(line, i)
      case Opens => Angle
      case Closes => AngleEnd
      case _ => if c == ';' then Semicolon else Other
  }

  /** `toks` holds, from the right, the tokens of the line that starts at offset `o`. */
  ghost predicate Turns(toks: seq<Token>, o: nat, line: string) {
    o + |line| <= |toks| && forall i :: 0 <= i < |line| ==> toks[|toks| - 1 - o - i] == BackToken(line, i)
  }

  function TurnStack(st: string): string {
    seq(|st|, i requires 0 <= i < |st| => TurnChar(st[i]))
  }

  lemma TurnPush(st: string, c: char)
    ensures TurnStack(Push(st, c)) == Push(TurnStack(st), TurnChar(c))
  {
  }

  lemma TurnPop(st: string)
    requires st != []
    ensures TurnStack(Pop(st)) == Pop(TurnStack(st)) && Top(TurnStack(st)) == TurnChar(Top(st))
  {
  }

  lemma {:induction false} TurnDrop(st: string)
    ensures TurnStack(Back.DropAngles(st)) == DropAngles(TurnStack(st))
    decreases |st|
  {
    if st == [] {
    } else {
      TurnPop(st);
      TurnChars(Top(st));
      if Top(st) == '>' {
        TurnDrop(Pop(st));
      }
    }
  }

  lemma TurnChars(c: char)
    ensures TurnChar(c) == '<' <==> c == '>'
    ensures IsOpen(TurnChar(c)) <==> IsClose(c)
    ensures IsClose(c) ==> TurnChar(c) == MirrorChar(c) && Closer(MirrorChar(c)) == c
    ensures IsOpen(c) ==> IsClose(MirrorChar(c)) && MirrorChar(MirrorChar(c)) == c
  {
  }

  /** The '<' behind `i` in its run are even in number, as they are when the scan stops at `i`. */
  ghost predicate Even(line: string, i: int) {
    0 <= i < |line| && line[i] == '<' ==> EvenFrom(line, i + 1)
  }

  ghost predicate EvenFrom(line: string, i: nat) {
    exists n :: LeftRun(line, i, n) && n % 2 == 0
  }

  lemma RunUnique(line: string, i: nat, n: nat, m: nat)
    requires LeftRun(line, i, n) && LeftRun(line, i, m)
    ensures n == m
  {
    assert i + n < |line| ==> line[i + n] != '<';
    assert i + m < |line| ==> line[i + m] != '<';
  }

  /** Two '<' in a row are passed together; neither counts. */
  lemma PairPasses(line: string, i: nat)
    requires 0 < i < |line| && line[i] == '<' && line[i - 1] == '<' && Even(line, i)
    ensures !OddLeft(line, i) && !OddLeft(line, i - 1) && Even(line, i - 2)
  {
    var n: nat :| LeftRun(line, i + 1, n) && n % 2 == 0;
    assert LeftRun(line, i, n + 1) && LeftRun(line, i - 1, n + 2);
    assert EvenFrom(line, i - 1);
    forall m: nat | LeftRun(line, i - 1, m) ensures m % 2 == 0 {
      RunUnique(line, i - 1, n + 2, m);
    }
  }

  /** A '<' reached alone counts. */
  lemma SingleCounts(line: string, i: nat)
    requires i < |line| && line[i] == '<' && (i == 0 || line[i - 1] != '<') && Even(line, i)
    ensures OddLeft(line, i)
  {
    var n: nat :| LeftRun(line, i + 1, n) && n % 2 == 0;
    assert LeftRun(line, i, n + 1);
  }

  lemma EvenLeftOf(line: string, i: nat)
    requires i < |line| && line[i] != '<'
    ensures Even(line, i - 1)
  {
    if i > 0 {
      assert LeftRun(line, i, 0);
      assert EvenFrom(line, i);
    }
  }

  lemma SkipIff(line: string, i: nat)
    requires i < |line|
    ensures Back.SkippedAngle(line, i) <==> NoAngle(line, i)
  {
    OperatorIff(line, i);
  }

  // ----- The scan of a line -----

  /** The backward scan at `i` is the forward machine at the turned position. */
  ghost predicate Agrees(toks: seq<Token>, o: nat, line: string, i: int, st: string)
    requires -1 <= i < |line| && o + |line| <= |toks|
  {
    var n := |toks|;
    match Back.ScanBack(line, i, st)
    case Found(p) => Scan(toks, n - o - i - 1, TurnStack(st)) == Ended(n - o - p)
    case Lost => Scan(toks, n - o - i - 1, TurnStack(st)) == Failed
    case Unfinished(s) => Scan(toks, n - o - i - 1, TurnStack(st)) == Scan(toks, n - o, TurnStack(s))
  }

  /** If the next state agrees, so does this one. */
  lemma AgreesBack(toks: seq<Token>, o: nat, line: string, i: nat, st: string, next: int, s: string)
    requires i < |line| && o + |line| <= |toks| && -1 <= next < i
    requires Back.ScanBack(line, i, st) == Back.ScanBack(line, next, s)
    requires Scan(toks, |toks| - o - i - 1, TurnStack(st)) == Scan(toks, |toks| - o - next - 1, TurnStack(s))
    requires Agrees(toks, o, line, next, s)
    ensures Agrees(toks, o, line, i, st)
  {
  }

  /** A character that is passed over. */
  lemma PassOne(toks: seq<Token>, o: nat, line: string, i: nat, st: string)
    requires Turns(toks, o, line) && i < |line| && BackToken(line, i).Other?
    ensures Scan(toks, |toks| - o - i - 1, st) == Scan(toks, |toks| - o - i, st)
  {
    ScanStep(toks, |toks| - o - i - 1, st, st);
  }

  /** A '>' or '<' that is skipped, with the character before it. */
  lemma SkipTwo(toks: seq<Token>, o: nat, line: string, i: nat, st: string)
    requires Turns(toks, o, line) && 0 < i < |line| && Even(line, i)
    requires (line[i] == '>' && NoAngle(line, i)) || (line[i] == '<' && line[i - 1] == '<')
    ensures Back.ScanBack(line, i, st) == Back.ScanBack(line, i - 2, st) && Even(line, i - 2)
    ensures Scan(toks, |toks| - o - i - 1, TurnStack(st)) == Scan(toks, |toks| - o - (i - 2) - 1, TurnStack(st))
  {
    SkipIff(line, i);
    SkippedIsOther(line, i);
    assert Back.ScanBack(line, i, st) == Back.ScanBack(line, i - 2, st);
    hide Back.ScanBack, Turns, BackToken, NoAngle, OddLeft, Back.SkippedAngle;
    PassOne(toks, o, line, i, TurnStack(st));
    PassOne(toks, o, line, i - 1, TurnStack(st));
  }

  lemma SkippedIsOther(line: string, i: nat)
    requires 0 < i < |line| && Even(line, i)
    requires (line[i] == '>' && NoAngle(line, i)) || (line[i] == '<' && line[i - 1] == '<')
    ensures BackToken(line, i).Other? && BackToken(line, i - 1).Other? && Even(line, i - 2)
  {
    if line[i] == '<' {
      PairPasses(line, i);
    } else {
      hide NoAngle;
      BeforeSkipped(line, i);
      EvenLeftOf(line, i - 1);
    }
  }

  /** The character before a skipped '>' is none that the scan looks for. */
  lemma BeforeSkipped(line: string, i: nat)
    requires 0 < i < |line| && NoAngle(line, i)
    ensures line[i - 1] !in "()[]{}<>;"
  {
    if k: nat :| OperatorAt(line, k, i) {
      OperatorLength(line, k, i);
      if k + 8 == i {
        assert line[i - 1] == line[k..k + 8][7] == 'r';
      } else {
        assert IsSpace(line[i - 1]);
      }
    }
  }

  predicate Skips(line: string, i: nat)
    requires i < |line|
  {
    (line[i] == '>' && Back.SkippedAngle(line, i)) || (line[i] == '<' && i > 0 && line[i - 1] == '<')
  }

  /** Every other character is one step of the forward machine. */
  lemma PlainStep(line: string, i: nat, st: string) returns (s: string)
    requires i < |line| && Even(line, i) && !Skips(line, i)
    ensures match Advance(TurnStack(st), BackToken(line, i))
      case Go(t) => t == TurnStack(s) && Back.ScanBack(line, i, st) == Back.ScanBack(line, i - 1, s)
      case Hit => Back.ScanBack(line, i, st) == Back.Found(i)
      case Dead => Back.ScanBack(line, i, st) == Back.Lost
  {
    var c := line[i];
    s := st;
    SkipIff(line, i);
    if c == '<' {
      SingleCounts(line, i);
    }
    hide NoAngle, OddLeft, Back.SkippedAngle, Even;
    if IsClose(c) || c == '>' {
      s := Push(st, c);
      TurnPush(st, c);
    } else if c == '<' {
      if st != [] {
        TurnPop(st);
        TurnChars(Top(st));
        if Top(st) == '>' {
          s := Pop(st);
        }
      }
    } else if IsOpen(c) {
      s := OpenerStep(line, i, st);
    } else if c == ';' {
      s := Back.DropAngles(st);
      TurnDrop(st);
    }
  }

  lemma OpenerStep(line: string, i: nat, st: string) returns (s: string)
    requires i < |line| && IsOpen(line[i])
    ensures match Advance(TurnStack(st), Close(MirrorChar(line[i])))
      case Go(t) => t == TurnStack(s) && Back.ScanBack(line, i, st) == Back.ScanBack(line, i - 1, s)
      case Hit => Back.ScanBack(line, i, st) == Back.Found(i)
      case Dead => Back.ScanBack(line, i, st) == Back.Lost
  {
    var u := Back.DropAngles(st);
    TurnDrop(st);
    TurnChars(line[i]);
    s := st;
    if u != [] {
      s := Pop(u);
      TurnPop(u);
      TurnChars(Top(u));
    }
  }

  /** The scan of a whole line from a place where it may stand. */
  lemma {:induction false} LineAgrees(toks: seq<Token>, o: nat, line: string, i: int, st: string)
    requires Turns(toks, o, line) && -1 <= i < |line| && Even(line, i)
    ensures Agrees(toks, o, line, i, st)
    decreases i
  {
    hide *;
    TurnsLength(toks, o, line);
    if i == -1 {
      AgreesAtEnd(toks, o, line, st);
    } else if Skips(line, i) {
      SkipIff(line, i);
      SkippedPair(line, i);
      SkipTwo(toks, o, line, i, st);
      LineAgrees(toks, o, line, i - 2, st);
      AgreesBack(toks, o, line, i, st, i - 2, st);
    } else {
      var s := PlainStep(line, i, st);
      var k := |toks| - o - i - 1;
      TurnsAt(toks, o, line, i);
      EvenNext(line, i);
      match Advance(TurnStack(st), toks[k])
      case Go(t) =>
        ScanStep(toks, k, TurnStack(st), t);
        LineAgrees(toks, o, line, i - 1, s);
        AgreesBack(toks, o, line, i, st, i - 1, s);
      case _ =>
        AgreesNow(toks, o, line, i, st);
    }
  }

  lemma TurnsLength(toks: seq<Token>, o: nat, line: string)
    requires Turns(toks, o, line)
    ensures o + |line| <= |toks|
  {
  }

  lemma AgreesAtEnd(toks: seq<Token>, o: nat, line: string, st: string)
    requires o + |line| <= |toks|
    ensures Agrees(toks, o, line, -1, st)
  {
  }

  lemma SkippedPair(line: string, i: nat)
    requires i < |line| && Skips(line, i)
    ensures i > 0 && ((line[i] == '>' && Back.SkippedAngle(line, i)) || (line[i] == '<' && line[i - 1] == '<'))
  {
  }

  lemma TurnsAt(toks: seq<Token>, o: nat, line: string, i: nat)
    requires Turns(toks, o, line) && i < |line|
    ensures o + |line| <= |toks| && toks[|toks| - o - i - 1] == BackToken(line, i)
  {
  }

  lemma AgreesNow(toks: seq<Token>, o: nat, line: string, i: nat, st: string)
    requires i < |line| && o + |line| <= |toks|
    requires match Advance(TurnStack(st), toks[|toks| - o - i - 1])
      case Go(_) => false
      case Hit => Back.ScanBack(line, i, st) == Back.Found(i)
      case Dead => Back.ScanBack(line, i, st) == Back.Lost
    ensures Agrees(toks, o, line, i, st)
  {
    hide Back.ScanBack, Advance, TurnStack;
  }

  lemma EvenNext(line: string, i: nat)
    requires i < |line| && Even(line, i) && !Skips(line, i)
    ensures Even(line, i - 1)
  {
    if line[i] != '<' {
      EvenLeftOf(line, i);
    }
  }

  // ----- The scan of a file -----

  ghost function LineTokens(line: string): seq<Token> {
    seq(|line|, i requires 0 <= i < |line| => BackToken(line, i))
  }

  ghost function BackTokens(lines: seq<string>): (toks: seq<Token>)
    ensures |toks| == |Flat(lines)|
  {
    if lines == [] then [] else LineTokens(lines[0]) + BackTokens(lines[1..])
  }

  ghost function TurnedTokens(lines: seq<string>): (toks: seq<Token>)
    ensures |toks| == |Flat(lines)|
  {
    seq(|Flat(lines)|, i requires 0 <= i < |Flat(lines)| => BackTokens(lines)[|Flat(lines)| - 1 - i])
  }

  lemma {:induction false} BackTokensLine(lines: seq<string>, l: nat)
    requires l < |lines|
    ensures Offset(lines, l) + |lines[l]| <= |Flat(lines)|
    ensures BackTokens(lines)[Offset(lines, l)..Offset(lines, l) + |lines[l]|] == LineTokens(lines[l])
  {
    hide BackToken;
    if l == 0 {
    } else {
      BackTokensLine(lines[1..], l - 1);
    }
  }

  lemma FileTurns(lines: seq<string>, l: nat)
    requires l < |lines|
    ensures Turns(TurnedTokens(lines), Offset(lines, l), lines[l])
  {
    hide BackToken, BackTokens, TurnedTokens, Flat, Offset;
    OffsetNext(lines, l);
    var o, line, n := Offset(lines, l), lines[l], |Flat(lines)|;
    forall i | 0 <= i < |line| ensures TurnedTokens(lines)[n - 1 - o - i] == BackToken(line, i) {
      TurnedAt(lines, o + i);
      BackTokenAt(lines, l, i);
    }
  }

  lemma TurnedAt(lines: seq<string>, k: nat)
    requires k < |Flat(lines)|
    ensures TurnedTokens(lines)[|Flat(lines)| - 1 - k] == BackTokens(lines)[k]
  {
    hide BackTokens, Flat;
  }

  lemma BackTokenAt(lines: seq<string>, l: nat, i: nat)
    requires l < |lines| && i < |lines[l]|
    ensures Offset(lines, l) + i < |Flat(lines)| && BackTokens(lines)[Offset(lines, l) + i] == BackToken(lines[l], i)
  {
    BackTokensLine(lines, l);
    hide BackToken, BackTokens, Flat, Offset;
    var o, line := Offset(lines, l), lines[l];
    assert BackTokens(lines)[o..o + |line|][i] == LineTokens(line)[i];
  }

  /** Line by line towards the first one, or in one piece on the turned text. */
  lemma {:induction false} OpenFromTurned(lines: seq<string>, l: nat, i: int, st: string)
    requires l < |lines| && -1 <= i < |lines[l]| && st != [] && Even(lines[l], i)
    ensures Offset(lines, l) + i + 1 <= |Flat(lines)|
    ensures var n := |Flat(lines)|;
            match Scan(TurnedTokens(lines), n - (Offset(lines, l) + i + 1), TurnStack(st))
            case Ended(e) => var r := Back.OpenFrom(lines, l, i, st);
                             r.Some? && n - (Offset(lines, r.value.0) + r.value.1) == e
            case _ => Back.OpenFrom(lines, l, i, st) == None
    decreases l
  {
    hide Flat, Offset, TurnedTokens, Turns, Back.ScanBack, TurnStack, Even, Advance;
    OffsetNext(lines, l);
    FileTurns(lines, l);
    LineAgrees(TurnedTokens(lines), Offset(lines, l), lines[l], i, st);
    BackKeepsStack(lines[l], i, st);
    match Back.ScanBack(lines[l], i, st)
    case Found(_) =>
    case Lost =>
    case Unfinished(s) =>
      if l > 0 {
        OffsetNext(lines, l - 1);
        LineEnd(lines[l - 1]);
        OpenFromTurned(lines, l - 1, |lines[l - 1]| - 1, s);
      } else {
        FirstOffset(lines);
      }
  }

  lemma FirstOffset(lines: seq<string>)
    ensures Offset(lines, 0) == 0
  {
  }

  lemma LineEnd(line: string)
    ensures Even(line, |line| - 1)
  {
    assert LeftRun(line, |line|, 0);
    assert EvenFrom(line, |line|);
  }

  lemma {:induction false} BackKeepsStack(line: string, i: int, st: string)
    requires -1 <= i < |line| && st != []
    ensures Back.ScanBack(line, i, st).Unfinished? ==> Back.ScanBack(line, i, st).stack != []
    decreases i
  {
    hide Back.SkippedAngle;
    if i == -1 {
    } else {
      var c := line[i];
      if Skips(line, i) {
        SkipsNeedLeft(line, i);
        BackKeepsStack(line, i - 2, st);
      } else if IsClose(c) || c == '>' {
        BackKeepsStack(line, i - 1, Push(st, c));
      } else if c == '<' && Top(st) == '>' {
        if |st| > 1 {
          BackKeepsStack(line, i - 1, Pop(st));
        }
      } else if IsOpen(c) {
        var s := Back.DropAngles(st);
        if |s| > 1 {
          BackKeepsStack(line, i - 1, Pop(s));
        }
      } else if c == ';' {
        if Back.DropAngles(st) != [] {
          BackKeepsStack(line, i - 1, Back.DropAngles(st));
        }
      } else {
        BackKeepsStack(line, i - 1, st);
      }
    }
  }

  lemma SkipsNeedLeft(line: string, i: nat)
    requires i < |line| && Skips(line, i)
    ensures i > 0
  {
  }

  // ----- Main result -----

  lemma TokenSpells(line: string, i: nat)
    requires i < |line|
    ensures Spells(TurnChar(line[i]), BackToken(line, i)) && TokenMark(BackToken(line, i)) == BackMarkAt(line, i)
  {
    hide NoAngle;
    TurnChars(line[i]);
  }

  lemma {:induction false} BackTokensSpell(lines: seq<string>, k: nat)
    requires k < |Flat(lines)|
    ensures Spells(TurnChar(Flat(lines)[k]), BackTokens(lines)[k])
    ensures TokenMark(BackTokens(lines)[k]) == BackMarks(lines)[k]
  {
    hide Spells, TokenMark, BackToken, BackMarkAt, TurnChar;
    if k < |lines[0]| {
      TokenSpells(lines[0], k);
    } else {
      BackTokensSpell(lines[1..], k - |lines[0]|);
    }
  }

  lemma TurnedReads(lines: seq<string>)
    ensures Reads(TurnedText(lines), TurnedTokens(lines)) && Marked(TurnedTokens(lines), TurnedMarks(lines))
  {
    hide Spells, TokenMark, TurnChar, BackTokens, BackMarks, Flat;
    forall k | 0 <= k < |Flat(lines)|
      ensures Spells(TurnedText(lines)[k], TurnedTokens(lines)[k])
      ensures TokenMark(TurnedTokens(lines)[k]) == TurnedMarks(lines)[k]
    {
      BackTokensSpell(lines, |Flat(lines)| - 1 - k);
    }
  }

  lemma FirstBack(lines: seq<string>, l: nat, q: nat)
    requires l < |lines| && q < |lines[l]| && BackMarkAt(lines[l], q).Opens?
    ensures Back.OpenPosition(lines, l, q) == Back.OpenFrom(lines, l, q - 1, ['>']) && Even(lines[l], q - 1)
    ensures TurnStack(['>']) == ['<']
  {
    SkipIff(lines[l], q);
    hide NoAngle, Back.SkippedAngle;
    assert Push([], '>') == ['>'];
    assert Back.ScanBack(lines[l], q, []) == Back.ScanBack(lines[l], q - 1, ['>']);
    EvenLeftOf(lines[l], q);
  }

  lemma OpenOffset(lines: seq<string>, l: nat, q: nat)
    requires l < |lines| && q < |lines[l]|
    ensures var r := Back.OpenPosition(lines, l, q); r.Some? ==> Offset(lines, r.value.0) + r.value.1 < |Flat(lines)|
  {
    hide Back.OpenFrom;
    var r := Back.OpenPosition(lines, l, q);
    if r.Some? {
      OffsetNext(lines, r.value.0);
    }
  }

  /**
    From any '>' that is not part of an operator, `ReverseCloseExpression` returns `p` if and only if the
    grammar, on the file read from the right, pairs the two.
   */
  lemma OpenTemplateIff(lines: seq<string>, l: nat, q: nat, p: int)
    requires l < |lines| && q < |lines[l]| && BackMarkAt(lines[l], q).Opens?
    ensures Offset(lines, l) + q < |Flat(lines)|
    ensures var r, n := Back.OpenPosition(lines, l, q), |Flat(lines)|;
            var b := n - (Offset(lines, l) + q);
            r.Some? && Offset(lines, r.value.0) + r.value.1 == p <==>
            0 <= p && b <= n - 1 - p && Paired(TurnedText(lines), TurnedMarks(lines), b, n - 1 - p) &&
            TurnedMarks(lines)[n - 1 - p].Closes?
  {
    hide *;
    CharAt(lines, l, q);
    FirstBack(lines, l, q);
    OpenOffset(lines, l, q);
    OpenFromTurned(lines, l, q - 1, ['>']);
    TurnedReads(lines);
    var n := |Flat(lines)|;
    ScanIsPaired(TurnedText(lines), TurnedTokens(lines), TurnedMarks(lines), n - (Offset(lines, l) + q), n - 1 - p);
  }

  /** From a '>' that is part of an operator the search goes on two characters to the left with nothing open. */
  lemma UnacceptedClose(lines: seq<string>, l: nat, q: nat)
    requires l < |lines| && q < |lines[l]| && lines[l][q] == '>' && NoAngle(lines[l], q)
    ensures Back.OpenPosition(lines, l, q) == Back.OpenFrom(lines, l, q - 2, [])
  {
    SkipIff(lines[l], q);
    hide NoAngle;
    assert Back.ScanBack(lines[l], q, []) == Back.ScanBack(lines[l], q - 2, []);
  }

  /** Nothing is searched from other characters. */
  lemma OnlyFromClosers(lines: seq<string>, l: nat, q: nat)
    requires l < |lines| && q < |lines[l]| && Back.OpenPosition(lines, l, q).Some?
    ensures lines[l][q] in ")]}>"
  {
  }
}
