/**
  `CloseExpression` from '<' against the grammar of angle brackets: it finds the end of the argument list
  if and only if the grammar has one there.
 */
module AngleTheorems {
  import opened Prelude
  import opened CppText
  import opened BracketGrammar
  import opened ForwardScan
  import opened ForwardTheorems
  import opened AngleGrammar

  function TokenMark(tok: Token): Mark {
    match tok
    case Angle => Opens
    case AngleEnd => Closes
    case ShiftTail => Cancels
    case _ => NoMark
  }

  /** The tokens carry these marks. */
  ghost predicate Marked(toks: seq<Token>, marks: seq<Mark>) {
    |toks| == |marks| && forall k :: 0 <= k < |toks| ==> TokenMark(toks[k]) == marks[k]
  }

  lemma ReadMark(line: string, i: nat)
    requires i < |line|
    ensures TokenMark(Read(line, i)) == MarkAt(line, i)
  {
    if line[i] == '<' {
      ReadLeft(line, i);
    } else if line[i] == '>' {
      ReadRight(line, i);
    }
    hide OperatorBefore, EndsWithOperator;
  }

  lemma NoOperatorFirst(line: string)
    ensures !OperatorBefore(line, 0)
  {
  }

  lemma ReadLeft(line: string, i: nat)
    requires i < |line| && line[i] == '<'
    ensures TokenMark(Read(line, i)) == LeftMark(line, i)
  {
    hide OperatorBefore, EndsWithOperator;
    NoOperatorFirst(line);
    OperatorIff(line, i);
  }

  lemma ReadRight(line: string, i: nat)
    requires i < |line| && line[i] == '>'
    ensures TokenMark(Read(line, i)) == RightMark(line, i)
  {
    hide OperatorBefore, EndsWithOperator;
    if i > 0 {
      OperatorIff(line, i - 1);
    }
  }

  lemma {:induction false} FileMarked(lines: seq<string>)
    ensures Marked(FlatTokens(lines), Marks(lines))
  {
    hide Read, MarkAt, TokenMark;
    if lines == [] {
    } else {
      FileMarked(lines[1..]);
      var line := lines[0];
      forall k | 0 <= k < |line| ensures TokenMark(ReadLine(line)[k]) == LineMarks(line)[k] {
        ReadMark(line, k);
      }
    }
  }

  // ----- Brackets above pending angles -----

  /** Balanced text above a pending bracket changes nothing below the angles on top. */
  lemma {:induction false} ScanBalanced(t: string, toks: seq<Token>, i: nat, k: nat, st: string) returns (s: string)
    requires Reads(t, toks) && i <= k <= |t| && Balanced(t, i, k) && DropAngles(st) != [] && st[0] == '<'
    ensures s != [] && s[0] == '<' && DropAngles(s) == DropAngles(st) && Scan(toks, i, st) == Scan(toks, k, s)
    decreases k - i
  {
    hide *;
    s := st;
    ReadsLength(t, toks);
    if i == k {
      NonEmptyDrop(st);
    } else {
      var j := BalancedFirst(t, i, k);
      FirstOf(t, toks, i);
      NonEmptyDrop(st);
      if IsOpen(t[i]) {
        PushedOpener(st, t[i]);
        ScanStep(toks, i, st, Push(st, t[i]));
        var s1 := ScanBalanced(t, toks, i + 1, j, Push(st, t[i]));
        ClosedGroup(t, toks, j, st, t[i], s1);
        s := ScanBalanced(t, toks, j + 1, k, st);
      } else {
        DropUnchanged(st, toks[i]);
        var s1 := Advance(st, toks[i]).stack;
        ScanStep(toks, i, st, s1);
        s := ScanBalanced(t, toks, i + 1, k, s1);
      }
    }
  }

  lemma ReadsLength(t: string, toks: seq<Token>)
    requires Reads(t, toks)
    ensures |t| == |toks|
  {
  }

  lemma FirstOf(t: string, toks: seq<Token>, i: nat)
    requires Reads(t, toks) && i < |t|
    ensures IsOpen(t[i]) ==> toks[i] == Open(t[i]) && forall st :: Advance(st, toks[i]) == Go(Push(st, t[i]))
    ensures !IsOpen(t[i]) && !IsClose(t[i]) ==> !toks[i].Open? && !toks[i].Close?
  {
    assert Spells(t[i], toks[i]);
  }

  lemma NonEmptyDrop(st: string)
    requires DropAngles(st) != []
    ensures st != []
  {
  }

  lemma PushedOpener(st: string, c: char)
    requires st != [] && st[0] == '<' && IsOpen(c)
    ensures DropAngles(Push(st, c)) == Push(st, c) && Push(st, c) != [] && Push(st, c)[0] == '<'
  {
    DropAfterPush(st, c);
  }

  lemma ScanStep(toks: seq<Token>, i: nat, st: string, s: string)
    requires i < |toks| && Advance(st, toks[i]) == Go(s)
    ensures Scan(toks, i, st) == Scan(toks, i + 1, s)
  {
  }

  lemma ClosedGroup(t: string, toks: seq<Token>, j: nat, st: string, c: char, s: string)
    requires Reads(t, toks) && j < |t| && IsOpen(c) && t[j] == Closer(c) && st != []
    requires DropAngles(s) == Push(st, c)
    ensures Scan(toks, j, s) == Scan(toks, j + 1, st)
  {
    assert Spells(t[j], toks[j]);
    PopPush(st, c);
    assert Advance(s, toks[j]) == Go(st);
  }

  /** A whole group leaves the stack as it was. */
  lemma ScanGroup(t: string, toks: seq<Token>, i: nat, k: nat, st: string)
    requires Reads(t, toks) && i < k < |t| && IsOpen(t[i]) && t[k] == Closer(t[i]) && Balanced(t, i + 1, k)
    requires st != [] && st[0] == '<'
    ensures Scan(toks, i, st) == Scan(toks, k + 1, st)
  {
    assert Spells(t[i], toks[i]);
    hide Balanced, Scan, DropAngles;
    DropAfterPush(st, t[i]);
    ScanStep(toks, i, st, Push(st, t[i]));
    var s := ScanBalanced(t, toks, i + 1, k, Push(st, t[i]));
    ClosedGroup(t, toks, k, st, t[i], s);
  }

  // ----- Only angles pending -----

  function Angles(n: nat): (st: string)
    ensures |st| == n && forall i :: 0 <= i < n ==> st[i] == '<'
  {
    if n == 0 then [] else Push(Angles(n - 1), '<')
  }

  lemma {:induction false} AnglesDrop(n: nat)
    ensures DropAngles(Angles(n)) == []
  {
    if n == 0 {
    } else {
      PopPush(Angles(n - 1), '<');
      AnglesDrop(n - 1);
    }
  }

  /** What one mark does above `n` pending angles. */
  lemma AngleStep(toks: seq<Token>, i: nat, n: nat)
    requires i < |toks| && n > 0
    ensures match toks[i]
      case Angle => Scan(toks, i, Angles(n)) == Scan(toks, i + 1, Angles(n + 1))
      case AngleEnd => Scan(toks, i, Angles(n)) == if n == 1 then Ended(i + 1) else Scan(toks, i + 1, Angles(n - 1))
      case ShiftTail => Scan(toks, i, Angles(n)) == if n == 1 then Failed else Scan(toks, i + 1, Angles(n - 1))
      case Open(_) => true
      case Other => Scan(toks, i, Angles(n)) == Scan(toks, i + 1, Angles(n))
      case _ => Scan(toks, i, Angles(n)) == Failed
  {
    AnglesDrop(n);
    PopPush(Angles(n - 1), '<');
  }

  /** Where the topmost pending angle ends, and how the scan goes on from there. */
  ghost predicate EndsAngle(toks: seq<Token>, marks: seq<Mark>, i: nat, n: nat, m: nat)
    requires i <= m < |toks| && |marks| == |toks| && n > 0
  {
    Scan(toks, i, Angles(n)) ==
    if n > 1 then Scan(toks, m + 1, Angles(n - 1)) else if marks[m].Closes? then Ended(m + 1) else Failed
  }

  /** The grammar at its first character, one case for each kind. */
  lemma PairedFirst(t: string, marks: seq<Mark>, i: nat, m: nat) returns (k: nat)
    requires |marks| == |t| && i <= m < |t| && Paired(t, marks, i, m)
    ensures i < m && IsOpen(t[i]) ==>
            i < k < m && t[k] == Closer(t[i]) && Balanced(t, i + 1, k) && Paired(t, marks, k + 1, m)
    ensures i < m && !IsOpen(t[i]) && marks[i].Opens? ==>
            i < k < m && Paired(t, marks, i + 1, k) && Paired(t, marks, k + 1, m)
    ensures i < m && !IsOpen(t[i]) && !marks[i].Opens? ==>
            !IsClose(t[i]) && t[i] != ';' && marks[i].NoMark? && Paired(t, marks, i + 1, m)
    ensures i == m ==> marks[m].Closes? || marks[m].Cancels?
  {
    k := i;
    if i == m {
    } else if IsOpen(t[i]) {
      k :| i < k < m && t[k] == Closer(t[i]) && Balanced(t, i + 1, k) && Paired(t, marks, k + 1, m);
    } else if marks[i].Opens? {
      k :| i < k < m && !marks[k].NoMark? && Paired(t, marks, i + 1, k) && Paired(t, marks, k + 1, m);
    }
  }

  /** The token that a character and its mark come from. */
  lemma TokenOf(t: string, toks: seq<Token>, marks: seq<Mark>, i: nat)
    requires Reads(t, toks) && Marked(toks, marks) && i < |t|
    ensures |t| == |toks| == |marks|
    ensures IsOpen(t[i]) ==> toks[i] == Open(t[i]) && marks[i].NoMark?
    ensures marks[i].Opens? <==> toks[i].Angle?
    ensures marks[i].Closes? <==> toks[i].AngleEnd?
    ensures marks[i].Cancels? <==> toks[i].ShiftTail?
    ensures marks[i].NoMark? && !IsOpen(t[i]) && !IsClose(t[i]) && t[i] != ';' ==> toks[i].Other?
  {
    assert Spells(t[i], toks[i]) && TokenMark(toks[i]) == marks[i];
  }

  /** If the grammar has an end, the scan gets there. */
  lemma {:induction false} PairedIsScanned(t: string, toks: seq<Token>, marks: seq<Mark>, i: nat, n: nat, m: nat)
    requires Reads(t, toks) && Marked(toks, marks) && n > 0 && i <= m < |t| && Paired(t, marks, i, m)
    ensures EndsAngle(toks, marks, i, n, m)
    decreases m - i
  {
    hide *;
    TokenOf(t, toks, marks, i);
    var k := PairedFirst(t, marks, i, m);
    if i == m {
      EndsHere(toks, marks, i, n);
    } else if IsOpen(t[i]) {
      ScanGroup(t, toks, i, k, Angles(n));
      PairedIsScanned(t, toks, marks, k + 1, n, m);
      EndsLater(toks, marks, i, k + 1, n, m);
    } else if marks[i].Opens? {
      AngleStep(toks, i, n);
      PairedIsScanned(t, toks, marks, i + 1, n + 1, k);
      EndsInner(toks, marks, i + 1, n, k);
      PairedIsScanned(t, toks, marks, k + 1, n, m);
      EndsLater(toks, marks, i, k + 1, n, m);
    } else {
      AngleStep(toks, i, n);
      PairedIsScanned(t, toks, marks, i + 1, n, m);
      EndsLater(toks, marks, i, i + 1, n, m);
    }
  }

  lemma EndsHere(toks: seq<Token>, marks: seq<Mark>, i: nat, n: nat)
    requires i < |toks| == |marks| && n > 0
    requires (marks[i].Closes? && toks[i].AngleEnd?) || (marks[i].Cancels? && toks[i].ShiftTail?)
    ensures EndsAngle(toks, marks, i, n, i)
  {
    hide Scan, Angles;
    AngleStep(toks, i, n);
  }

  lemma EndsLater(toks: seq<Token>, marks: seq<Mark>, i: nat, k: nat, n: nat, m: nat)
    requires i <= k <= m < |toks| == |marks| && n > 0
    requires Scan(toks, i, Angles(n)) == Scan(toks, k, Angles(n)) && EndsAngle(toks, marks, k, n, m)
    ensures EndsAngle(toks, marks, i, n, m)
  {
  }

  lemma EndsOutermost(toks: seq<Token>, marks: seq<Mark>, i: nat, m: nat)
    requires i <= m < |toks| == |marks| && EndsAngle(toks, marks, i, 1, m)
    ensures Scan(toks, i, Angles(1)) == if marks[m].Closes? then Ended(m + 1) else Failed
  {
  }

  lemma EndsInner(toks: seq<Token>, marks: seq<Mark>, i: nat, n: nat, k: nat)
    requires i <= k < |toks| == |marks| && n > 0 && EndsAngle(toks, marks, i, n + 1, k)
    ensures Scan(toks, i, Angles(n + 1)) == Scan(toks, k + 1, Angles(n))
  {
  }

  /** If the scan succeeds, the grammar has an end for the topmost angle. */
  lemma {:induction false} ScannedIsPaired(t: string, toks: seq<Token>, marks: seq<Mark>, i: nat, n: nat) returns (m: nat)
    requires Reads(t, toks) && Marked(toks, marks) && n > 0 && i <= |t| && Scan(toks, i, Angles(n)).Ended?
    ensures i <= m < |t| && Paired(t, marks, i, m) && EndsAngle(toks, marks, i, n, m)
    decreases |t| - i
  {
    hide *;
    SameLengths(t, toks, marks);
    ScanNext(toks, i, Angles(n));
    TokenOf(t, toks, marks, i);
    OtherIs(t, toks, i);
    AngleStep(toks, i, n);
    match toks[i]
    case Open(c) =>
      var k := GroupEnd(t, toks, i, n);
      ScanGroup(t, toks, i, k, Angles(n));
      m := ScannedIsPaired(t, toks, marks, k + 1, n);
      PairedGroup(t, marks, i, k, m);
      EndsLater(toks, marks, i, k + 1, n, m);
    case Angle =>
      var k := ScannedIsPaired(t, toks, marks, i + 1, n + 1);
      EndsInner(toks, marks, i + 1, n, k);
      m := ScannedIsPaired(t, toks, marks, k + 1, n);
      PairedInner(t, marks, i, k, m);
      EndsLater(toks, marks, i, k + 1, n, m);
    case Other =>
      m := ScannedIsPaired(t, toks, marks, i + 1, n);
      PairedText(t, marks, i, m);
      EndsLater(toks, marks, i, i + 1, n, m);
    case _ =>
      m := i;
      PairedHere(t, marks, i);
      EndsHere(toks, marks, i, n);
  }

  lemma OtherIs(t: string, toks: seq<Token>, i: nat)
    requires Reads(t, toks) && i < |t|
    ensures toks[i].Other? ==> !IsOpen(t[i]) && !IsClose(t[i]) && t[i] != ';'
    ensures toks[i].Open? ==> IsOpen(t[i]) && toks[i] == Open(t[i])
    ensures toks[i].Angle? ==> !IsOpen(t[i])
  {
    assert Spells(t[i], toks[i]);
  }

  lemma PairedHere(t: string, marks: seq<Mark>, i: nat)
    requires |marks| == |t| && i < |t| && (marks[i].Closes? || marks[i].Cancels?)
    ensures Paired(t, marks, i, i)
  {
  }

  lemma PairedText(t: string, marks: seq<Mark>, i: nat, m: nat)
    requires |marks| == |t| && i < m < |t| && !IsOpen(t[i]) && !IsClose(t[i]) && t[i] != ';' && marks[i].NoMark?
    requires Paired(t, marks, i + 1, m)
    ensures Paired(t, marks, i, m)
  {
  }

  /** A bracket opened above pending angles is closed in a successful scan. */
  lemma GroupEnd(t: string, toks: seq<Token>, i: nat, n: nat) returns (k: nat)
    requires Reads(t, toks) && n > 0 && i < |t| && IsOpen(t[i]) && toks[i] == Open(t[i]) && Scan(toks, i, Angles(n)).Ended?
    ensures i < k < |t| && t[k] == Closer(t[i]) && Balanced(t, i + 1, k)
  {
    hide Balanced, DropAngles;
    var st := Push(Angles(n), t[i]);
    assert Advance(Angles(n), toks[i]) == Go(st);
    hide Scan, Angles;
    ScanStep(toks, i, Angles(n), st);
    DropAfterPush(Angles(n), t[i]);
    k := ScanFinds(t, toks, i + 1, st);
  }

  lemma PairedGroup(t: string, marks: seq<Mark>, i: nat, k: nat, m: nat)
    requires |marks| == |t| && i < k < m < |t| && IsOpen(t[i]) && t[k] == Closer(t[i]) && Balanced(t, i + 1, k)
    requires Paired(t, marks, k + 1, m)
    ensures Paired(t, marks, i, m)
  {
  }

  lemma PairedInner(t: string, marks: seq<Mark>, i: nat, k: nat, m: nat)
    requires |marks| == |t| && i < k < m < |t| && !IsOpen(t[i]) && marks[i].Opens?
    requires Paired(t, marks, i + 1, k) && Paired(t, marks, k + 1, m)
    ensures Paired(t, marks, i, m)
  {
    PairedEnd(t, marks, i + 1, k);
  }

  lemma {:induction false} PairedEnd(t: string, marks: seq<Mark>, i: nat, m: nat)
    requires |marks| == |t| && i <= m < |t| && Paired(t, marks, i, m)
    ensures marks[m].Closes? || marks[m].Cancels?
    decreases m - i
  {
    var k := PairedFirst(t, marks, i, m);
    if i == m {
    } else if IsOpen(t[i]) || marks[i].Opens? {
      PairedEnd(t, marks, k + 1, m);
    } else {
      PairedEnd(t, marks, i + 1, m);
    }
  }

  lemma OneAngle()
    ensures Angles(1) == ['<']
  {
    assert Push(Angles(0), '<') == ['<'];
  }

  lemma SameLengths(t: string, toks: seq<Token>, marks: seq<Mark>)
    requires Reads(t, toks) && Marked(toks, marks)
    ensures |t| == |toks| == |marks|
  {
  }

  /** The scan from one pending angle ends just past `q` exactly when `q` is the grammar's end and closes. */
  lemma ScanIsPaired(t: string, toks: seq<Token>, marks: seq<Mark>, i: nat, q: int)
    requires Reads(t, toks) && Marked(toks, marks) && i <= |t|
    ensures q >= 0 && Scan(toks, i, ['<']) == Ended(q + 1) <==>
            i <= q < |t| && Paired(t, marks, i, q) && marks[q].Closes?
  {
    hide *;
    OneAngle();
    SameLengths(t, toks, marks);
    if Scan(toks, i, ['<']).Ended? {
      var m := ScannedIsPaired(t, toks, marks, i, 1);
      EndsOutermost(toks, marks, i, m);
    }
    if i <= q < |t| && Paired(t, marks, i, q) {
      PairedIsScanned(t, toks, marks, i, 1, q);
      EndsOutermost(toks, marks, i, q);
    }
  }

  // ----- Over a whole file -----

  lemma MarkInFile(lines: seq<string>, l: nat, p: nat)
    requires l < |lines| && p < |lines[l]|
    ensures TokenMark(Read(lines[l], p)) == MarkAt(lines[l], p)
    ensures Read(lines[l], p).Angle? <==> MarkAt(lines[l], p).Opens?
  {
    ReadMark(lines[l], p);
  }

  /** The characters behind '<' with which no argument list can begin. */
  predicate Refused(line: string, p: nat) {
    p + 1 < |line| && line[p + 1] in "<="
  }

  /**
    From any '<' that opens, `CloseExpression` ends just past `q` if and only if the next character is not
    '<' or '=', and `q` is the '>' that the grammar pairs with it.
   */
  lemma CloseTemplateIff(lines: seq<string>, l: nat, p: nat, q: int)
    requires l < |lines| && p < |lines[l]| && MarkAt(lines[l], p).Opens?
    ensures |Marks(lines)| == |Flat(lines)|
    ensures var r, b := ClosePosition(lines, l, p), Offset(lines, l) + p + 1;
            r.Some? && Offset(lines, r.value.0) + r.value.1 == q + 1 <==>
            !Refused(lines[l], p) && b <= q < |Flat(lines)| && Paired(Flat(lines), Marks(lines), b, q) &&
            Marks(lines)[q].Closes?
  {
    assert Starts(lines[l], p) <==> !Refused(lines[l], p);
    hide *;
    MarksLength(lines);
    MarkInFile(lines, l, p);
    if Starts(lines[l], p) {
      AngleAlone(lines[l], p);
      FirstStep(lines, l, p);
      CloseFromAngle(lines, l, p + 1, q);
    } else {
      NotStarted(lines, l, p);
    }
  }

  lemma MarksLength(lines: seq<string>)
    ensures |Marks(lines)| == |Flat(lines)|
  {
    hide *;
    FlatTokensLength(lines);
    FileMarked(lines);
    MarkedLength(FlatTokens(lines), Marks(lines));
  }

  /** The search with one angle pending, over the rest of the file. */
  lemma CloseFromAngle(lines: seq<string>, l: nat, i: nat, q: int)
    requires l < |lines| && i <= |lines[l]|
    ensures |Marks(lines)| == |Flat(lines)| && Offset(lines, l) + i <= |Flat(lines)|
    ensures var r, b := CloseFrom(lines, l, i, ['<']), Offset(lines, l) + i;
            r.Some? && Offset(lines, r.value.0) + r.value.1 == q + 1 <==>
            b <= q < |Flat(lines)| && Paired(Flat(lines), Marks(lines), b, q) && Marks(lines)[q].Closes?
  {
    hide *;
    MarksLength(lines);
    FlatTokensLength(lines);
    FlatTokensRead(lines);
    FileMarked(lines);
    CloseFromFlat(lines, l, i, ['<']);
    ScanIsPaired(Flat(lines), FlatTokens(lines), Marks(lines), Offset(lines, l) + i, q);
  }

  lemma MarkedLength(toks: seq<Token>, marks: seq<Mark>)
    requires Marked(toks, marks)
    ensures |toks| == |marks|
  {
  }

  /** Nothing is searched from other characters. */
  lemma NotStarted(lines: seq<string>, l: nat, p: nat)
    requires l < |lines| && p < |lines[l]| && !Starts(lines[l], p)
    ensures ClosePosition(lines, l, p) == None
  {
  }

  lemma OnlyFromOpeners(lines: seq<string>, l: nat, p: nat)
    requires l < |lines| && p < |lines[l]| && ClosePosition(lines, l, p).Some?
    ensures lines[l][p] in "([{<" && (lines[l][p] == '<' ==> !Refused(lines[l], p))
  {
  }
}
