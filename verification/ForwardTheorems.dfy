/**
  `CloseExpression` against the bracket grammar. From a real bracket the template heuristics never
  change the answer; from an accepted '<' the enclosed text is a balanced argument list.
 */
module ForwardTheorems {
  import opened Prelude
  import opened CppText
  import opened BracketGrammar
  import opened ForwardScan

  // ----- The file as one token sequence -----

  function FlatTokens(lines: seq<string>): seq<Token> {
    if lines == [] then [] else ReadLine(lines[0]) + FlatTokens(lines[1..])
  }

  ghost predicate Spells(c: char, tok: Token) {
    match tok
    case Open(d) => c == d && IsOpen(c)
    case Close(d) => c == d && IsClose(c)
    case Angle => c == '<'
    case ShiftTail => c == '<'
    case AngleEnd => c == '>'
    case Semicolon => c == ';'
    case Other => !IsOpen(c) && !IsClose(c) && c != ';'
  }

  /** The tokens are a reading of the text, character by character. */
  ghost predicate Reads(t: string, toks: seq<Token>) {
    |t| == |toks| && forall k :: 0 <= k < |t| ==> Spells(t[k], toks[k])
  }

  lemma {:induction false} FlatTokensRead(lines: seq<string>)
    ensures Reads(Flat(lines), FlatTokens(lines))
  {
    if lines == [] {
    } else {
      FlatTokensRead(lines[1..]);
      var line := lines[0];
      assert forall k :: 0 <= k < |line| ==> Spells(line[k], ReadLine(line)[k]);
    }
  }

  lemma {:induction false} FlatTokensLine(lines: seq<string>, l: nat)
    requires l < |lines|
    ensures Offset(lines, l) + |lines[l]| <= |FlatTokens(lines)|
    ensures FlatTokens(lines)[Offset(lines, l)..Offset(lines, l) + |lines[l]|] == ReadLine(lines[l])
  {
    if l == 0 {
    } else {
      FlatTokensLine(lines[1..], l - 1);
    }
  }

  lemma {:induction false} ScanInFlat(ft: seq<Token>, off: nat, lt: seq<Token>, i: nat, st: string)
    requires off + |lt| <= |ft| && ft[off..off + |lt|] == lt && i <= |lt|
    ensures Scan(ft, off + i, st) ==
            match Scan(lt, i, st)
            case Ended(e) => Ended(off + e)
            case Failed => Failed
            case Pending(s) => Scan(ft, off + |lt|, s)
    decreases |lt| - i
  {
    if i == |lt| {
    } else {
      assert ft[off + i] == lt[i];
      match Advance(st, lt[i])
      case Go(s) => ScanInFlat(ft, off, lt, i + 1, s);
      case _ =>
    }
  }

  lemma {:induction false} ScanKeepsStack(toks: seq<Token>, i: nat, st: string)
    requires i <= |toks| && st != []
    ensures Scan(toks, i, st).Pending? ==> Scan(toks, i, st).stack != []
    decreases |toks| - i
  {
    if i == |toks| {
    } else {
      match Advance(st, toks[i])
      case Go(s) => ScanKeepsStack(toks, i + 1, s);
      case _ =>
    }
  }

  lemma {:induction false} FlatTokensLength(lines: seq<string>)
    ensures |FlatTokens(lines)| == |Flat(lines)|
  {
    if lines == [] {
    } else {
      FlatTokensLength(lines[1..]);
    }
  }

  lemma ReadLineLength(line: string)
    ensures |ReadLine(line)| == |line|
  {
  }

  /** One line of the scan, seen from the whole file. */
  lemma ScanOneLine(lines: seq<string>, l: nat, i: nat, st: string)
    requires l < |lines| && i <= |lines[l]|
    ensures Offset(lines, l + 1) == Offset(lines, l) + |lines[l]| <= |FlatTokens(lines)|
    ensures Scan(FlatTokens(lines), Offset(lines, l) + i, st) ==
            match Scan(ReadLine(lines[l]), i, st)
            case Ended(e) => Ended(Offset(lines, l) + e)
            case Failed => Failed
            case Pending(s) => Scan(FlatTokens(lines), Offset(lines, l + 1), s)
  {
    hide *;
    ReadLineLength(lines[l]);
    FlatTokensLine(lines, l);
    OffsetNext(lines, l);
    ScanInFlat(FlatTokens(lines), Offset(lines, l), ReadLine(lines[l]), i, st);
  }

  /** Line by line or in one piece, the scan ends at the same character. */
  lemma {:induction false} CloseFromFlat(lines: seq<string>, l: nat, i: nat, st: string)
    requires l < |lines| && i <= |lines[l]| && st != []
    ensures Offset(lines, l) + i <= |FlatTokens(lines)|
    ensures match Scan(FlatTokens(lines), Offset(lines, l) + i, st)
      case Ended(e) => var r := CloseFrom(lines, l, i, st);
                       r.Some? && Offset(lines, r.value.0) + r.value.1 == e
      case _ => CloseFrom(lines, l, i, st) == None
    decreases |lines| - l
  {
    hide Flat, FlatTokens, Offset, ReadLine, Advance;
    ReadLineLength(lines[l]);
    ScanOneLine(lines, l, i, st);
    ScanKeepsStack(ReadLine(lines[l]), i, st);
    match Scan(ReadLine(lines[l]), i, st)
    case Ended(e) =>
    case Failed =>
    case Pending(s) =>
      if l + 1 < |lines| {
        CloseFromFlat(lines, l + 1, 0, s);
      } else {
        OffsetEnd(lines);
        FlatTokensLength(lines);
      }
  }

  // ----- Starting from a real bracket -----

  /** The stack without any angle bracket. */
  function Real(st: string): string {
    if st == [] then [] else if Top(st) == '<' then Real(Pop(st)) else Push(Real(Pop(st)), Top(st))
  }

  lemma {:induction false} RealBottom(st: string)
    requires st != [] && st[0] != '<'
    ensures Real(st) != [] && DropAngles(st) != [] && DropAngles(st)[0] == st[0]
    ensures Real(DropAngles(st)) == Real(st)
    ensures Top(Real(st)) == Top(DropAngles(st))
    ensures |Real(st)| == 1 <==> |DropAngles(st)| == 1
    ensures Pop(Real(st)) == Real(Pop(DropAngles(st)))
    decreases |st|
  {
    if |st| > 1 {
      RealBottom(Pop(st));
    } else {
      assert Pop(st) == [];
    }
  }

  lemma RealPush(st: string, c: char)
    ensures Real(Push(st, c)) == if c == '<' then Real(st) else Push(Real(st), c)
  {
    PopPush(st, c);
  }

  /** With a real bracket at the bottom of the stack, every heuristic is invisible. */
  lemma {:induction false} ScanIsPlain(t: string, toks: seq<Token>, i: nat, st: string)
    requires |t| == |toks| && Reads(t, toks) && i <= |t| && st != [] && st[0] != '<'
    ensures Real(st) != []
    ensures Plain(t, i, Real(st)) == match Scan(toks, i, st) case Ended(e) => Some(e) case _ => None
    decreases |t| - i
  {
    RealBottom(st);
    if i == |t| {
    } else {
      assert Spells(t[i], toks[i]);
      match Advance(st, toks[i])
      case Go(s) =>
        AdvanceIsPlain(st, toks[i], s);
        ScanIsPlain(t, toks, i + 1, s);
      case _ =>
    }
  }

  lemma AdvanceIsPlain(st: string, tok: Token, s: string)
    requires st != [] && st[0] != '<' && Advance(st, tok) == Go(s)
    requires tok.Open? ==> tok.c != '<'
    ensures s != [] && s[0] == st[0]
    ensures Real(s) == match tok
      case Open(c) => Push(Real(st), c)
      case Close(_) => if Real(st) == [] then [] else Pop(Real(st))
      case _ => Real(st)
  {
    RealBottom(st);
    match tok
    case Open(c) => RealPush(st, c);
    case Angle => RealPush(st, '<');
    case _ =>
  }

  lemma ScanFromBracket(lines: seq<string>, i: nat, c: char)
    requires i <= |Flat(lines)| && IsOpen(c)
    ensures |FlatTokens(lines)| == |Flat(lines)|
    ensures Plain(Flat(lines), i, [c]) ==
            match Scan(FlatTokens(lines), i, [c]) case Ended(e) => Some(e) case _ => None
  {
    assert Real([c]) == [c] by {
      RealPush([], c);
      assert Push([], c) == [c];
    }
    hide *;
    FlatTokensLength(lines);
    FlatTokensRead(lines);
    ScanIsPlain(Flat(lines), FlatTokens(lines), i, [c]);
  }

  lemma CharAt(lines: seq<string>, l: nat, p: nat)
    requires l < |lines| && p < |lines[l]|
    ensures Offset(lines, l) + p < |Flat(lines)| && Flat(lines)[Offset(lines, l) + p] == lines[l][p]
  {
    OffsetNext(lines, l);
    var o, o' := Offset(lines, l), Offset(lines, l + 1);
    assert Flat(lines)[o + p] == Flat(lines)[o..o'][p];
  }

  lemma BracketStarts(line: string, p: nat)
    requires p < |line| && IsOpen(line[p])
    ensures Starts(line, p) && Read(line, p).Open?
  {
  }

  lemma CloseIsPlain(lines: seq<string>, l: nat, p: nat)
    requires l < |lines| && p < |lines[l]| && IsOpen(lines[l][p])
    ensures Offset(lines, l) + p < |Flat(lines)| && Flat(lines)[Offset(lines, l) + p] == lines[l][p]
    ensures Plain(Flat(lines), Offset(lines, l) + p + 1, [lines[l][p]]) ==
            match ClosePosition(lines, l, p)
            case Some((l2, e)) => Some(Offset(lines, l2) + e)
            case None => None
  {
    hide *;
    BracketStarts(lines[l], p);
    CharAt(lines, l, p);
    FirstStep(lines, l, p);
    CloseFromFlat(lines, l, p + 1, [lines[l][p]]);
    ScanFromBracket(lines, Offset(lines, l) + p + 1, lines[l][p]);
  }

  /** From `(`, `[` or `{`, `CloseExpression` ends just past `q` exactly when `q` closes the bracket. */
  lemma CloseIsMatch(lines: seq<string>, l: nat, p: nat, q: int)
    requires l < |lines| && p < |lines[l]| && IsOpen(lines[l][p])
    ensures Matches(Flat(lines), Offset(lines, l) + p, q) <==>
            var r := ClosePosition(lines, l, p); r.Some? && Offset(lines, r.value.0) + r.value.1 == q + 1
  {
    hide *;
    CloseIsPlain(lines, l, p);
    PlainIsMatches(Flat(lines), Offset(lines, l) + p, q);
  }

  /** The opener is pushed and the scan goes on behind it. */
  lemma FirstStep(lines: seq<string>, l: nat, p: nat)
    requires l < |lines| && p < |lines[l]| && Starts(lines[l], p)
    requires Read(lines[l], p).Open? || Read(lines[l], p).Angle?
    ensures ClosePosition(lines, l, p) == CloseFrom(lines, l, p + 1, [lines[l][p]])
  {
    var line := lines[l];
    assert ReadLine(line)[p] == Read(line, p);
    assert Advance([], Read(line, p)) == Go([line[p]]);
    assert Scan(ReadLine(line), p, []) == Scan(ReadLine(line), p + 1, [line[p]]);
  }

  // ----- Starting from '<' -----

  /** A ::= empty | x A | ( B ) A | [ B ] A | { B } A, where x is neither a bracket nor ';'. */
  ghost predicate ArgumentList(t: string, i: nat, k: nat)
    requires i <= k <= |t|
    decreases k - i
  {
    if i == k then true
    else if IsOpen(t[i]) then
      exists m :: i < m < k && t[m] == Closer(t[i]) && Balanced(t, i + 1, m) && ArgumentList(t, m + 1, k)
    else !IsClose(t[i]) && t[i] != ';' && ArgumentList(t, i + 1, k)
  }

  /** The stack under the topmost real bracket. */
  function BelowTop(st: string): string
    requires DropAngles(st) != []
  {
    Pop(DropAngles(st))
  }

  /** Once a real bracket is pending, a successful scan closes it after balanced text and goes on. */
  lemma {:induction false} ScanFinds(t: string, toks: seq<Token>, i: nat, st: string) returns (k: nat)
    requires |t| == |toks| && Reads(t, toks) && i <= |t| && DropAngles(st) != [] && st[0] == '<'
    requires Scan(toks, i, st).Ended?
    ensures i <= k < |t| && Balanced(t, i, k)
    ensures IsOpen(Top(DropAngles(st))) && t[k] == Closer(Top(DropAngles(st)))
    ensures Scan(toks, k + 1, BelowTop(st)) == Scan(toks, i, st)
    decreases |t| - i
  {
    hide *;
    ScanNext(toks, i, st);
    PendingBracketStep(t, toks, i, st);
    match toks[i]
    case Open(c) =>
      var m := ScanFinds(t, toks, i + 1, Push(st, t[i]));
      k := ScanFinds(t, toks, m + 1, st);
      BalancedGroup(t, i, m, k);
    case Close(c) =>
      k := i;
      BalancedNothing(t, i);
    case _ =>
      k := ScanFinds(t, toks, i + 1, Advance(st, toks[i]).stack);
      BalancedText(t, i, k);
  }

  lemma ScanNext(toks: seq<Token>, i: nat, st: string)
    requires i <= |toks| && Scan(toks, i, st).Ended?
    ensures i < |toks| && !Advance(st, toks[i]).Dead?
    ensures match Advance(st, toks[i])
      case Go(s) => Scan(toks, i + 1, s) == Scan(toks, i, st)
      case Hit => Scan(toks, i, st) == Ended(i + 1)
      case Dead => true
  {
  }

  /** What one token does above a pending real bracket that itself sits above '<'. */
  lemma PendingBracketStep(t: string, toks: seq<Token>, i: nat, st: string)
    requires Reads(t, toks) && i < |t| && DropAngles(st) != [] && st[0] == '<'
    requires !Advance(st, toks[i]).Dead?
    ensures match toks[i]
      case Open(c) =>
        IsOpen(t[i]) && Advance(st, toks[i]) == Go(Push(st, t[i])) && Push(st, t[i])[0] == '<' &&
        DropAngles(Push(st, t[i])) != [] && Top(DropAngles(Push(st, t[i]))) == t[i] &&
        BelowTop(Push(st, t[i])) == st
      case Close(c) =>
        IsOpen(Top(DropAngles(st))) && t[i] == Closer(Top(DropAngles(st))) &&
        Advance(st, toks[i]) == Go(BelowTop(st))
      case _ =>
        !IsOpen(t[i]) && !IsClose(t[i]) && Advance(st, toks[i]).Go? &&
        var s := Advance(st, toks[i]).stack;
        s != [] && s[0] == '<' && DropAngles(s) == DropAngles(st) && BelowTop(s) == BelowTop(st)
  {
    assert Spells(t[i], toks[i]);
    DropBottom(st);
    match toks[i]
    case Open(c) => DropAfterPush(st, c);
    case Close(c) =>
    case _ => DropUnchanged(st, toks[i]);
  }

  lemma BalancedText(t: string, i: nat, k: nat)
    requires i < k <= |t| && !IsOpen(t[i]) && !IsClose(t[i]) && Balanced(t, i + 1, k)
    ensures Balanced(t, i, k)
  {
  }

  lemma BalancedGroup(t: string, i: nat, m: nat, k: nat)
    requires i < m < k <= |t| && IsOpen(t[i]) && t[m] == Closer(t[i])
    requires Balanced(t, i + 1, m) && Balanced(t, m + 1, k)
    ensures Balanced(t, i, k)
  {
  }

  lemma DropAfterPush(st: string, c: char)
    requires c != '<'
    ensures DropAngles(Push(st, c)) == Push(st, c) && BelowTop(Push(st, c)) == st
  {
    PopPush(st, c);
  }

  /** Tokens that are not brackets leave the real brackets where they are. */
  lemma DropUnchanged(st: string, tok: Token)
    requires DropAngles(st) != [] && st[0] == '<' && !tok.Open? && !tok.Close?
    ensures Advance(st, tok).Go?
    ensures var s := Advance(st, tok).stack;
            s != [] && s[0] == '<' && DropAngles(s) == DropAngles(st)
  {
    DropBottom(st);
    PopPush(st, '<');
  }

  lemma {:induction false} DropBottom(st: string)
    requires DropAngles(st) != [] && st[0] == '<'
    ensures DropAngles(st)[0] == '<' && |DropAngles(st)| > 1
    ensures DropAngles(DropAngles(st)) == DropAngles(st)
    decreases |st|
  {
    if Top(st) == '<' {
      DropBottom(Pop(st));
    }
  }

  /** Only angle brackets pending: a successful scan stops on '>' after an argument list. */
  lemma {:induction false} ScanArguments(t: string, toks: seq<Token>, i: nat, st: string)
    requires Reads(t, toks) && i <= |t| && st != [] && st[0] == '<' && DropAngles(st) == []
    requires Scan(toks, i, st).Ended?
    ensures var e := Scan(toks, i, st).past; t[e - 1] == '>' && ArgumentList(t, i, e - 1)
    decreases |t| - i
  {
    hide Balanced, Scan;
    ScanNext(toks, i, st);
    assert Spells(t[i], toks[i]);
    match toks[i]
    case Open(c) =>
      DropAfterPush(st, c);
      var m := ScanFinds(t, toks, i + 1, Push(st, c));
      ScanArguments(t, toks, m + 1, st);
    case Angle =>
      PopPush(st, '<');
      ScanArguments(t, toks, i + 1, Push(st, '<'));
    case AngleEnd =>
      if |st| > 1 {
        ScanArguments(t, toks, i + 1, Pop(st));
      }
    case ShiftTail =>
      ScanArguments(t, toks, i + 1, Pop(st));
    case Other =>
      ScanArguments(t, toks, i + 1, st);
  }

  lemma AngleAlone(line: string, p: nat)
    requires p < |line| && Read(line, p).Angle?
    ensures line[p] == '<' && DropAngles(['<']) == []
  {
    assert Pop(['<']) == [];
  }

  /** From an accepted '<', success ends just past a '>' that follows a balanced argument list. */
  lemma CloseTemplate(lines: seq<string>, l: nat, p: nat)
    requires l < |lines| && p < |lines[l]| && Starts(lines[l], p) && Read(lines[l], p).Angle?
    requires ClosePosition(lines, l, p).Some?
    ensures var (l2, e) := ClosePosition(lines, l, p).value;
            var b, q := Offset(lines, l) + p, Offset(lines, l2) + e - 1;
            b < q < |Flat(lines)| && Flat(lines)[q] == '>' && ArgumentList(Flat(lines), b + 1, q)
  {
    hide *;
    AngleAlone(lines[l], p);
    FirstStep(lines, l, p);
    CloseFromFlat(lines, l, p + 1, ['<']);
    FlatTokensRead(lines);
    ScanArguments(Flat(lines), FlatTokens(lines), Offset(lines, l) + p + 1, ['<']);
  }

  /** From a '<' that is not accepted the search goes on behind it with nothing open. */
  lemma UnacceptedAngle(lines: seq<string>, l: nat, p: nat)
    requires l < |lines| && p < |lines[l]| && Starts(lines[l], p)
    requires lines[l][p] == '<' && !Read(lines[l], p).Angle?
    ensures ClosePosition(lines, l, p) == CloseFrom(lines, l, p + 1, [])
  {
    var line := lines[l];
    assert ReadLine(line)[p] == Read(line, p);
    assert Advance([], Read(line, p)) == Go([]);
    assert Scan(ReadLine(line), p, []) == Scan(ReadLine(line), p + 1, []);
  }

  /** A '<' read as the tail of a shift is not accepted, and the end of a later bracket is returned. */
  lemma ShiftTailClosesLaterBracket()
    ensures ClosePosition(["<<(a)"], 0, 1) == Some((0, 5))
    ensures !Matches(Flat(["<<(a)"]), 1, 4)
  {
    var line := "<<(a)";
    var toks := ReadLine(line);
    assert toks == [Angle, ShiftTail, Open('('), Other, Close(')')];
    assert Pop(['(']) == [];
    assert Push([], '(') == ['('];
    assert Scan(toks, 4, ['(']) == Ended(5);
    assert Scan(toks, 3, ['(']) == Ended(5);
    assert Scan(toks, 2, []) == Ended(5);
    assert Flat([line]) == line;
  }
}
