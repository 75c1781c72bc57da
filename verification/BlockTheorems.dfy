/**
  What `NestingState.Update` does to the block stack, line by line and over whole stretches of a file,
  stated by the grammar of declarations and by sums over lines.
 */
module BlockTheorems {
  import opened Prelude
  import opened NestingModel
  import opened BlockGrammar

  function OpenIn(st: seq<Block>): Option<int> {
    if st == [] then None else Some(st[|st| - 1].openParentheses)
  }

  /** The block that a line starts in, with the line's parentheses counted. */
  function Counted(f: Line, b: Block): Block {
    var open := b.openParentheses + f.depthChange;
    b.(openParentheses := open, inlineAsm := AsmAfter(b.inlineAsm, f.depthChange, open, f.asmStart))
  }

  /** An access keyword counts for the class that the line starts in, if the line declares nothing. */
  predicate SetsAccess(f: Line, open: int) {
    f.namespaces == [] && !Declares(f, Some(open)) && f.tail.access.Some?
  }

  function Settled(f: Line, b: Block): Block {
    if b.kind.Class? && SetsAccess(f, b.openParentheses) then Counted(f, b).(access := f.tail.access.value)
    else Counted(f, b)
  }

  function SettledStack(f: Line, st: seq<Block>): seq<Block> {
    if st == [] then [] else st[|st| - 1 := Settled(f, st[|st| - 1])]
  }

  // ----- The model's steps are those of the word -----

  lemma {:induction false} NamespacesPlayed(ds: seq<NamespaceDecl>, line: nat, st: seq<Block>)
    ensures PushNamespaces(ds, line, st) == Play(NamespaceSyms(ds, line), st)
    decreases |ds|
  {
    if ds == [] {
    } else {
      NamespacesPlayed(ds[1..], line, st + [NamespaceBlock(ds[0], line)]);
      var w := NamespaceSyms(ds, line);
      assert w[1..] == NamespaceSyms(ds[1..], line);
      assert Apply(w[0], st) == st + [NamespaceBlock(ds[0], line)];
    }
  }

  lemma TokenPlayed(tok: Token, line: nat, st: seq<Block>)
    ensures Consume(tok, line, st) == Apply(TokenSym(tok, line), st)
  {
  }

  lemma {:induction false} TokensPlayed(toks: seq<Token>, line: nat, st: seq<Block>)
    ensures ConsumeAll(toks, line, st) == Play(TokenSyms(toks, line), st)
    decreases |toks|
  {
    hide Consume, TokenSym, Apply;
    if toks == [] {
    } else {
      TokenPlayed(toks[0], line, st);
      TokensPlayed(toks[1..], line, Consume(toks[0], line, st));
      assert TokenSyms(toks, line)[1..] == TokenSyms(toks[1..], line);
    }
  }

  lemma {:induction false} NamespaceOnTop(ds: seq<NamespaceDecl>, line: nat, st: seq<Block>)
    ensures var s := PushNamespaces(ds, line, st);
            if ds == [] then s == st
            else s != [] && Top(s).kind.Namespace? && Top(s).openParentheses == 0
    decreases |ds|
  {
    if ds == [] {
    } else {
      var s := st + [NamespaceBlock(ds[0], line)];
      NamespaceOnTop(ds[1..], line, s);
      assert Top(s) == NamespaceBlock(ds[0], line);
    }
  }

  lemma CountedTop(f: Line, st: seq<Block>)
    ensures CountParentheses(f, st) == if st == [] then [] else st[|st| - 1 := Counted(f, st[|st| - 1])]
  {
  }

  /** The class declaration is accepted exactly when the line declares one. */
  lemma AcceptedIff(f: Line, st: seq<Block>)
    ensures AcceptsClass(f, PushNamespaces(f.namespaces, f.number, CountParentheses(f, st))) <==>
            Declares(f, OpenIn(st))
  {
    CountedTop(f, st);
    NamespaceOnTop(f.namespaces, f.number, CountParentheses(f, st));
    hide PushNamespaces, CountParentheses;
  }

  lemma ClassPushed(f: Line, st: seq<Block>)
    requires AcceptsClass(f, st)
    ensures SetAccess(f.tailBehindClass.access, CheckBegin(f, DeclareClass(f, st))) == st + [ClassHead(f)]
  {
    var c := NewBlock(Class(f.classDecl.value.name, f.classDecl.value.isStruct), f.number);
    var s := DeclareClass(f, st);
    assert s == st + [c] && Top(s) == c;
    var c1 := c.(isDerived := f.bareColon, parents := if f.bareColon then {} + f.bases else {});
    var s1 := CheckBegin(f, s);
    assert s1 == st + [c1] && Top(s1) == c1;
    assert {} + f.bases == f.bases;
    assert SetAccess(f.tailBehindClass.access, s1) == st + [ClassHead(f)];
  }

  lemma NothingPushed(f: Line, st: seq<Block>)
    requires SeenOpenBrace(st) && !Declares(f, OpenIn(st))
    ensures var s := PushNamespaces(f.namespaces, f.number, CountParentheses(f, st));
            SetAccess(f.tail.access, CheckBegin(f, s)) ==
            PushNamespaces(f.namespaces, f.number, SettledStack(f, st))
  {
    CountedTop(f, st);
    NamespaceOnTop(f.namespaces, f.number, CountParentheses(f, st));
    if f.namespaces != [] {
      hide PushNamespaces;
      assert SettledStack(f, st) == CountParentheses(f, st);
    }
  }

  // ----- One line -----

  lemma WordHeaded(f: Line, open: Option<int>)
    ensures WellHeaded(Word(f, open))
  {
    NamespacesHeaded(f.namespaces, f.number);
    TokensHeaded(f.tail.tokens, f.number);
    TokensHeaded(f.tailBehindClass.tokens, f.number);
    hide TokenSyms, NamespaceSyms;
  }

  lemma SettledWhenDeclaring(f: Line, st: seq<Block>)
    requires Declares(f, OpenIn(st))
    ensures SettledStack(f, st) == CountParentheses(f, st)
  {
  }

  /** The whole effect of a line is its word, played on the settled stack. */
  lemma EffectIsWord(f: Line, st: seq<Block>)
    requires SeenOpenBrace(st)
    ensures Effect(f, st) == Play(Word(f, OpenIn(st)), SettledStack(f, st))
  {
    var st1 := PushNamespaces(f.namespaces, f.number, CountParentheses(f, st));
    var ns := NamespaceSyms(f.namespaces, f.number);
    AcceptedIff(f, st);
    NamespacesPlayed(f.namespaces, f.number, SettledStack(f, st));
    if Declares(f, OpenIn(st)) {
      SettledWhenDeclaring(f, st);
      ClassPushed(f, st1);
      assert Effect(f, st) == ConsumeAll(f.tailBehindClass.tokens, f.number, st1 + [ClassHead(f)]);
      var rest := TokenSyms(f.tailBehindClass.tokens, f.number);
      hide Effect, PushNamespaces, CountParentheses, SettledStack, ClassHead, TokenSyms, NamespaceSyms, ConsumeAll;
      TokensPlayed(f.tailBehindClass.tokens, f.number, st1 + [ClassHead(f)]);
      PlayConcat(ns, [Head(ClassHead(f))] + rest, SettledStack(f, st));
      HeadPlayed(ClassHead(f), rest, st1);
    } else {
      NothingPushed(f, st);
      hide PushNamespaces, CountParentheses, SettledStack, CheckBegin, SetAccess, ConsumeAll, TokenSyms, NamespaceSyms;
      TokensPlayed(f.tail.tokens, f.number, PushNamespaces(f.namespaces, f.number, SettledStack(f, st)));
      PlayConcat(ns, TokenSyms(f.tail.tokens, f.number), SettledStack(f, st));
      DeclinedDeclaration(f, st1);
    }
  }

  lemma HeadPlayed(b: Block, rest: seq<Sym>, st: seq<Block>)
    ensures Play([Head(b)] + rest, st) == Play(rest, st + [b])
  {
    assert ([Head(b)] + rest)[1..] == rest;
  }

  lemma DeclinedDeclaration(f: Line, st: seq<Block>)
    requires !AcceptsClass(f, st)
    ensures DeclareClass(f, st) == st
  {
  }

  lemma SettledSeen(f: Line, st: seq<Block>)
    requires SeenOpenBrace(st)
    ensures SeenOpenBrace(SettledStack(f, st))
  {
  }

  /**
    A line adds to the stack exactly the blocks that its declarations and braces leave open. So a forward
    declaration, or a class or block that ends on its line, leaves the stack of before.
   */
  lemma LineLeaves(f: Line, st: seq<Block>, bs: seq<Block>)
    requires SeenOpenBrace(st) && Leaves(Word(f, OpenIn(st)), bs)
    ensures Effect(f, st) == SettledStack(f, st) + bs
  {
    hide *;
    EffectIsWord(f, st);
    WordHeaded(f, OpenIn(st));
    SettledSeen(f, st);
    PlayLeaves(Word(f, OpenIn(st)), bs, SettledStack(f, st));
  }

  /** A line that ends enclosing blocks takes exactly those from the stack, as far as there are any. */
  lemma LineShuts(f: Line, st: seq<Block>, m: nat, bs: seq<Block>)
    requires AllSeen(st) && Shuts(Word(f, OpenIn(st)), m, bs)
    ensures Effect(f, st) == Lower(SettledStack(f, st), m) + bs
  {
    assert SeenOpenBrace(st) && AllSeen(SettledStack(f, st));
    hide *;
    EffectIsWord(f, st);
    WordHeaded(f, OpenIn(st));
    PlayShuts(Word(f, OpenIn(st)), m, bs, SettledStack(f, st));
  }

  /** A head that waits for its brace, with what the line says about it. */
  function Continued(f: Line, h: Block): Block {
    var derived := h.isDerived || f.bareColon;
    if h.kind.Class? then
      Settled(f, h).(isDerived := derived, parents := if derived then h.parents + f.bases else h.parents)
    else Settled(f, h)
  }

  /** The same for a head from an earlier line: it is the first symbol of the word. */
  lemma HeadLineLeaves(f: Line, base: seq<Block>, h: Block, bs: seq<Block>)
    requires SeenOpenBrace(base) && !h.seenOpenBrace && f.namespaces == [] && !Declares(f, Some(h.openParentheses))
    requires Leaves([Head(Continued(f, h))] + TokenSyms(f.tail.tokens, f.number), bs)
    ensures Effect(f, base + [h]) == base + bs
  {
    hide *;
    var w := [Head(Continued(f, h))] + TokenSyms(f.tail.tokens, f.number);
    HeadContinues(f, base, h);
    ContinuedHeaded(f, h);
    TokensPlayed(f.tail.tokens, f.number, base + [Continued(f, h)]);
    HeadPlayed(Continued(f, h), TokenSyms(f.tail.tokens, f.number), base);
    PlayLeaves(w, bs, base);
  }

  lemma ContinuedHeaded(f: Line, h: Block)
    requires !h.seenOpenBrace
    ensures WellHeaded([Head(Continued(f, h))] + TokenSyms(f.tail.tokens, f.number))
  {
    TokensHeaded(f.tail.tokens, f.number);
    hide TokenSyms;
  }

  lemma TokensHeaded(toks: seq<Token>, line: nat)
    ensures WellHeaded(TokenSyms(toks, line))
  {
  }

  lemma NamespacesHeaded(ds: seq<NamespaceDecl>, line: nat)
    ensures WellHeaded(NamespaceSyms(ds, line))
  {
  }

  lemma HeadContinues(f: Line, base: seq<Block>, h: Block)
    requires !h.seenOpenBrace && f.namespaces == [] && !Declares(f, Some(h.openParentheses))
    ensures Effect(f, base + [h]) == ConsumeAll(f.tail.tokens, f.number, base + [Continued(f, h)])
  {
    var st := base + [h];
    AcceptedIff(f, st);
    var s1 := CountParentheses(f, st);
    assert s1 == base + [Counted(f, h)] && Top(s1) == Counted(f, h);
    assert PushNamespaces([], f.number, s1) == s1;
    DeclinedDeclaration(f, s1);
    var c := Continued(f, h);
    var h2 := if h.kind.Class? then Counted(f, h).(isDerived := c.isDerived, parents := c.parents) else Counted(f, h);
    var s2 := CheckBegin(f, s1);
    assert s2 == base + [h2] && Top(s2) == h2;
    assert SetAccess(f.tail.access, s2) == base + [c];
    hide CountParentheses, CheckBegin, SetAccess, ConsumeAll, PushNamespaces;
  }

  // ----- A stretch of lines inside one block -----

  /** Parentheses open in the block after the first `n` lines. */
  function OpenAfter(fs: seq<Line>, open: int, n: nat): int
    requires n <= |fs|
  {
    if n == 0 then open else OpenAfter(fs, open, n - 1) + fs[n - 1].depthChange
  }

  /** Lines without directives, each complete in itself. */
  ghost predicate Body(fs: seq<Line>, open: int) {
    forall i :: 0 <= i < |fs| ==>
      fs[i].directive.NoDirective? && Complete(Word(fs[i], Some(OpenAfter(fs, open, i))))
  }

  predicate SetsAccessAt(fs: seq<Line>, open: int, i: nat)
    requires i < |fs|
  {
    SetsAccess(fs[i], OpenAfter(fs, open, i))
  }

  /** The line starts an assembly statement whose parenthesis it leaves open. */
  predicate EntersAsm(fs: seq<Line>, open: int, i: nat)
    requires i < |fs|
  {
    fs[i].asmStart && fs[i].depthChange != 0 && OpenAfter(fs, open, i + 1) == 1
  }

  /** Behind the first `n` lines the parentheses are never all closed. */
  predicate StaysOpen(fs: seq<Line>, open: int, n: nat) {
    forall j :: n < j <= |fs| ==> OpenAfter(fs, open, j) != 0
  }

  /** Inside an assembly statement: one was entered and its parentheses have not been closed since. */
  ghost predicate InAsm(fs: seq<Line>, open: int, before: Asm) {
    (before.InsideAsm? && StaysOpen(fs, open, 0)) ||
    exists i :: 0 <= i < |fs| && EntersAsm(fs, open, i) && StaysOpen(fs, open, i + 1)
  }

  /** The assembly state behind the lines, which is at its end for one line only. */
  ghost predicate AsmThrough(fs: seq<Line>, open: int, before: Asm, after: Asm) {
    if before.BlockAsm? || fs == [] then after == before
    else
      !after.BlockAsm? &&
      (after.InsideAsm? <==> InAsm(fs, open, before)) &&
      (after.EndAsm? <==> InAsm(fs[..|fs| - 1], open, before) && OpenAfter(fs, open, |fs|) == 0)
  }

  /** Line `i` is the last one that sets the access level. */
  predicate LastAccess(fs: seq<Line>, open: int, i: nat) {
    i < |fs| && SetsAccessAt(fs, open, i) && forall j :: i < j < |fs| ==> !SetsAccessAt(fs, open, j)
  }

  ghost predicate AccessThrough(fs: seq<Line>, b: Block, after: string) {
    var open := b.openParentheses;
    && (forall i: nat :: b.kind.Class? && LastAccess(fs, open, i) ==> after == fs[i].tail.access.value)
    && (!b.kind.Class? || (forall i: nat :: !LastAccess(fs, open, i)) ==> after == b.access)
  }

  /** What a stretch of complete lines does to the block it lies in. */
  ghost predicate Through(fs: seq<Line>, b: Block, b': Block) {
    var open := b.openParentheses;
    b' == b.(openParentheses := OpenAfter(fs, open, |fs|), access := b'.access, inlineAsm := b'.inlineAsm) &&
    AsmThrough(fs, open, b.inlineAsm, b'.inlineAsm) && AccessThrough(fs, b, b'.access)
  }

  lemma {:induction false} OpenAfterPrefix(fs: seq<Line>, open: int, n: nat, k: nat)
    requires n <= k <= |fs|
    ensures OpenAfter(fs[..k], open, n) == OpenAfter(fs, open, n)
    decreases n
  {
    if n == 0 {
    } else {
      OpenAfterPrefix(fs, open, n - 1, k);
    }
  }

  lemma {:induction false} RunLast(s: State, fs: seq<Line>)
    requires fs != []
    ensures Run(s, fs) == Next(Run(s, fs[..|fs| - 1]), fs[|fs| - 1])
    decreases |fs|
  {
    hide Next;
    if |fs| == 1 {
      assert fs[..0] == [] && fs[1..] == [];
    } else {
      RunLast(Next(s, fs[0]), fs[1..]);
      assert fs[1..][..|fs| - 2] == fs[..|fs| - 1][1..];
    }
  }

  /** One more line. */
  lemma AsmOneMore(fs: seq<Line>, open: int, before: Asm, now: Asm)
    requires fs != [] && AsmThrough(fs[..|fs| - 1], open, before, now)
    ensures var f, o := fs[|fs| - 1], OpenAfter(fs, open, |fs|);
            AsmThrough(fs, open, before, AsmAfter(now, f.depthChange, o, f.asmStart))
  {
    var front, n := fs[..|fs| - 1], |fs|;
    if !before.BlockAsm? {
      InAsmNow(fs, open, before);
      if front == [] {
        assert InAsm(front, open, before) <==> before.InsideAsm?;
      }
      hide InAsm;
    }
  }

  lemma InAsmNow(fs: seq<Line>, open: int, before: Asm)
    requires fs != []
    ensures var n := |fs|;
            InAsm(fs, open, before) <==>
            EntersAsm(fs, open, n - 1) || (InAsm(fs[..n - 1], open, before) && OpenAfter(fs, open, n) != 0)
  {
    var front, n := fs[..|fs| - 1], |fs|;
    forall j: nat | j <= n - 1 ensures OpenAfter(front, open, j) == OpenAfter(fs, open, j) {
      OpenAfterPrefix(fs, open, j, n - 1);
    }
    hide OpenAfter;
    assert forall i: nat :: i < n - 1 ==> (EntersAsm(front, open, i) <==> EntersAsm(fs, open, i));
    assert forall i: nat :: i < n ==> (StaysOpen(fs, open, i) <==> StaysOpen(front, open, i) && OpenAfter(fs, open, n) != 0);
    if InAsm(fs, open, before) && !EntersAsm(fs, open, n - 1) {
      if i :| 0 <= i < |fs| && EntersAsm(fs, open, i) && StaysOpen(fs, open, i + 1) {
        assert EntersAsm(front, open, i) && StaysOpen(front, open, i + 1);
      }
    }
    if InAsm(front, open, before) && OpenAfter(fs, open, n) != 0 {
      if i :| 0 <= i < |front| && EntersAsm(front, open, i) && StaysOpen(front, open, i + 1) {
        assert EntersAsm(fs, open, i) && StaysOpen(fs, open, i + 1);
      }
    }
    if EntersAsm(fs, open, n - 1) {
      assert StaysOpen(fs, open, n);
    }
  }

  lemma AccessOneMore(fs: seq<Line>, b: Block, now: string)
    requires fs != [] && AccessThrough(fs[..|fs| - 1], b, now)
    ensures var n, open := |fs|, b.openParentheses;
            AccessThrough(fs, b, if b.kind.Class? && SetsAccessAt(fs, open, n - 1) then fs[n - 1].tail.access.value else now)
  {
    var front, n, open := fs[..|fs| - 1], |fs|, b.openParentheses;
    forall i: nat
      ensures LastAccess(fs, open, i) <==> if SetsAccessAt(fs, open, n - 1) then i == n - 1 else LastAccess(front, open, i)
      ensures LastAccess(front, open, i) ==> i < n - 1 && front[i] == fs[i]
    {
      LastAccessMore(fs, open, i);
    }
    hide SetsAccessAt, LastAccess;
    if SetsAccessAt(fs, open, n - 1) {
      assert LastAccess(fs, open, n - 1);
    }
  }

  lemma LastAccessMore(fs: seq<Line>, open: int, i: nat)
    requires fs != []
    ensures var front, n := fs[..|fs| - 1], |fs|;
            (LastAccess(fs, open, i) <==> if SetsAccessAt(fs, open, n - 1) then i == n - 1 else LastAccess(front, open, i)) &&
            (LastAccess(front, open, i) ==> i < n - 1 && front[i] == fs[i])
  {
    var front, n := fs[..|fs| - 1], |fs|;
    forall j: nat | j < n - 1 ensures SetsAccessAt(front, open, j) <==> SetsAccessAt(fs, open, j) {
      OpenAfterPrefix(fs, open, j, n - 1);
    }
    hide SetsAccessAt;
  }

  lemma ThroughOneMore(fs: seq<Line>, b: Block, now: Block)
    requires fs != [] && Through(fs[..|fs| - 1], b, now)
    ensures Through(fs, b, Settled(fs[|fs| - 1], now))
  {
    var n, open := |fs|, b.openParentheses;
    OpenAfterPrefix(fs, open, n - 1, n - 1);
    AsmOneMore(fs, open, b.inlineAsm, now.inlineAsm);
    AccessOneMore(fs, b, now.access);
    hide AsmThrough, AccessThrough, AsmAfter;
  }

  /**
    Over any stretch of complete lines inside a block, whatever declarations, forward declarations and blocks
    they hold, the stack below stays as it is; the block's parentheses are the sum over the lines, its access
    level is the last one set, and it is in an assembly statement exactly while one's parentheses are open.
   */
  lemma {:induction false} BodyRun(fs: seq<Line>, base: seq<Block>, b: Block, pp: seq<Checkpoint>) returns (b': Block)
    requires b.seenOpenBrace && Body(fs, b.openParentheses)
    ensures Run(State(base + [b], pp), fs) == State(base + [b'], pp) && Through(fs, b, b')
  {
    hide *;
    if fs == [] {
      b' := b;
      NothingRun(State(base + [b], pp), b);
    } else {
      BodyPrefix(fs, b.openParentheses);
      var now := BodyRun(fs[..|fs| - 1], base, b, pp);
      var f := fs[|fs| - 1];
      b' := Settled(f, now);
      ThroughKeeps(fs[..|fs| - 1], b, now);
      OpenAfterPrefix(fs, b.openParentheses, |fs| - 1, |fs| - 1);
      RunLast(State(base + [b], pp), fs);
      BodyStep(f, base, now, pp);
      ThroughOneMore(fs, b, now);
    }
  }

  lemma NothingRun(s: State, b: Block)
    ensures Run(s, []) == s && Through([], b, b)
  {
  }

  lemma ThroughKeeps(fs: seq<Line>, b: Block, b': Block)
    requires Through(fs, b, b')
    ensures b'.seenOpenBrace == b.seenOpenBrace && b'.openParentheses == OpenAfter(fs, b.openParentheses, |fs|)
  {
  }

  lemma BodyStep(f: Line, base: seq<Block>, b: Block, pp: seq<Checkpoint>)
    requires b.seenOpenBrace && f.directive.NoDirective? && Complete(Word(f, Some(b.openParentheses)))
    ensures Next(State(base + [b], pp), f) == State(base + [Settled(f, b)], pp)
  {
    hide Effect, Leaves, Word, Complete, Settled;
    CompleteLeaves(Word(f, Some(b.openParentheses)));
    LineLeaves(f, base + [b], []);
    assert SettledStack(f, base + [b]) == base + [Settled(f, b)];
  }

  lemma BodyPrefix(fs: seq<Line>, open: int)
    requires fs != [] && Body(fs, open)
    ensures Body(fs[..|fs| - 1], open)
    ensures var n := |fs| - 1; fs[n].directive.NoDirective? && Complete(Word(fs[n], Some(OpenAfter(fs, open, n))))
  {
    hide Complete, Word;
    forall i | 0 <= i < |fs| - 1 ensures OpenAfter(fs[..|fs| - 1], open, i) == OpenAfter(fs, open, i) {
      OpenAfterPrefix(fs, open, i, |fs| - 1);
    }
  }

  // ----- A head over several lines -----

  /** Lines that only continue a head: no directive, nothing declared, no brace or semicolon. */
  ghost predicate HeadLines(fs: seq<Line>, open: int) {
    forall i :: 0 <= i < |fs| ==>
      fs[i].directive.NoDirective? && fs[i].namespaces == [] && fs[i].tail.tokens == [] &&
      !Declares(fs[i], Some(OpenAfter(fs, open, i)))
  }

  /** Line `i` names `p` as a base: a colon stands on it or on an earlier line of the head. */
  predicate NamesBase(fs: seq<Line>, derived: bool, i: nat, p: string) {
    i < |fs| && p in fs[i].bases && (derived || exists j :: 0 <= j <= i && fs[j].bareColon)
  }

  /** The head of a class after these lines: derived if a colon was seen, with the bases named from there on. */
  ghost predicate HeadThrough(fs: seq<Line>, h: Block, h': Block) {
    && (h'.isDerived <==> h.isDerived || exists i :: 0 <= i < |fs| && fs[i].bareColon)
    && (forall p :: p in h'.parents <==> p in h.parents || exists i :: NamesBase(fs, h.isDerived, i, p))
  }

  lemma HeadOneMore(fs: seq<Line>, h: Block, now: Block)
    requires fs != [] && now.kind.Class? && HeadThrough(fs[..|fs| - 1], h, now)
    ensures HeadThrough(fs, h, Continued(fs[|fs| - 1], now))
  {
    var front, n := fs[..|fs| - 1], |fs|;
    var f := fs[n - 1];
    var next := Continued(f, now);
    assert next.isDerived <==> now.isDerived || f.bareColon;
    assert next.isDerived <==> h.isDerived || exists i :: 0 <= i < n && fs[i].bareColon by {
      assert forall i :: 0 <= i < n - 1 ==> front[i] == fs[i];
      if f.bareColon {
        assert fs[n - 1].bareColon;
      }
      if now.isDerived && !h.isDerived {
        var i :| 0 <= i < |front| && front[i].bareColon;
        assert fs[i].bareColon;
      }
    }
    forall p
      ensures p in next.parents <==> p in h.parents || exists i :: NamesBase(fs, h.isDerived, i, p)
    {
      assert forall i: nat :: i < n - 1 ==> (NamesBase(front, h.isDerived, i, p) <==> NamesBase(fs, h.isDerived, i, p));
      assert NamesBase(fs, h.isDerived, n - 1, p) <==> next.isDerived && p in f.bases;
      if i: nat :| NamesBase(front, h.isDerived, i, p) {
        assert NamesBase(fs, h.isDerived, i, p);
      }
    }
  }

  /** The head of a class that spreads over several lines waits on the stack and collects its bases. */
  lemma {:induction false} HeadRun(fs: seq<Line>, base: seq<Block>, h: Block, pp: seq<Checkpoint>) returns (h': Block)
    requires !h.seenOpenBrace && SeenOpenBrace(base) && h.kind.Class? && HeadLines(fs, h.openParentheses)
    ensures Run(State(base + [h], pp), fs) == State(base + [h'], pp) && HeadThrough(fs, h, h')
    ensures h'.kind == h.kind && !h'.seenOpenBrace && h'.openParentheses == OpenAfter(fs, h.openParentheses, |fs|)
  {
    hide *;
    if fs == [] {
      h' := h;
      NothingContinued(State(base + [h], pp), h);
    } else {
      HeadPrefix(fs, h.openParentheses);
      var now := HeadRun(fs[..|fs| - 1], base, h, pp);
      var f := fs[|fs| - 1];
      OpenAfterPrefix(fs, h.openParentheses, |fs| - 1, |fs| - 1);
      h' := Continued(f, now);
      HeadOneMore(fs, h, now);
      RunLast(State(base + [h], pp), fs);
      HeadStep(f, base, now, pp);
      OpenLast(fs, h.openParentheses);
    }
  }

  lemma NothingContinued(s: State, h: Block)
    ensures Run(s, []) == s && HeadThrough([], h, h) && OpenAfter([], h.openParentheses, 0) == h.openParentheses
  {
  }

  lemma OpenLast(fs: seq<Line>, open: int)
    requires fs != []
    ensures OpenAfter(fs, open, |fs|) == OpenAfter(fs, open, |fs| - 1) + fs[|fs| - 1].depthChange
  {
  }

  lemma HeadPrefix(fs: seq<Line>, open: int)
    requires fs != [] && HeadLines(fs, open)
    ensures HeadLines(fs[..|fs| - 1], open)
    ensures var f := fs[|fs| - 1];
            f.directive.NoDirective? && f.namespaces == [] && f.tail.tokens == [] &&
            !Declares(f, Some(OpenAfter(fs, open, |fs| - 1)))
  {
    hide Declares;
    forall i | 0 <= i < |fs| - 1 ensures OpenAfter(fs[..|fs| - 1], open, i) == OpenAfter(fs, open, i) {
      OpenAfterPrefix(fs, open, i, |fs| - 1);
    }
  }

  lemma HeadStep(f: Line, base: seq<Block>, h: Block, pp: seq<Checkpoint>)
    requires !h.seenOpenBrace && f.directive.NoDirective? && f.namespaces == [] && f.tail.tokens == []
    requires !Declares(f, Some(h.openParentheses))
    ensures Next(State(base + [h], pp), f) == State(base + [Continued(f, h)], pp)
    ensures Continued(f, h).kind == h.kind && !Continued(f, h).seenOpenBrace
    ensures Continued(f, h).openParentheses == h.openParentheses + f.depthChange
  {
    HeadContinues(f, base, h);
    hide Effect, Declares;
  }
}
