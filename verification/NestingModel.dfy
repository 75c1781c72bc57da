/**
  `NestingState` on values: what `Update` does to the block stack and to the checkpoints that
  `UpdatePreprocessor` keeps, with each line reduced to the lexical facts the code reads off it.
 */
module NestingModel {
  import opened Prelude

  datatype Asm = NoAsm | InsideAsm | EndAsm | BlockAsm

  datatype Kind = Plain | ExternC | Class(name: string, isStruct: bool) | Namespace(title: string)

  /** The fields of one `_BlockInfo` object, whatever its class. */
  datatype Block = Block(
    kind: Kind,
    startingLine: nat,
    seenOpenBrace: bool,
    openParentheses: int,
    inlineAsm: Asm,
    access: string,
    isDerived: bool,
    parents: set<string>)

  function NewBlock(kind: Kind, line: nat): Block {
    Block(kind, line, kind.Plain? || kind.ExternC?, 0, NoAsm,
          if kind.Class? then (if kind.isStruct then "public" else "private") else "", false, {})
  }

  datatype Directive = IfLine | ElseLine | EndifLine | NoDirective

  datatype NamespaceDecl = NamespaceDecl(name: string, brace: bool)

  /** `inTemplate` is the answer of `InTemplateArgumentList` behind the declaration. */
  datatype ClassDecl = ClassDecl(name: string, isStruct: bool, inTemplate: bool)

  datatype Token = OpenBrace(externC: bool, asm: bool) | SemicolonOrParen | CloseBrace

  /** What is read off the part of the line behind the namespace and class declarations. */
  datatype Tail = Tail(access: Option<string>, tokens: seq<Token>)

  /** Everything `Update` reads off one line; none of it depends on the stack. */
  datatype Line = Line(
    directive: Directive,
    number: nat,
    depthChange: int,
    asmStart: bool,
    namespaces: seq<NamespaceDecl>,
    classDecl: Option<ClassDecl>,
    bareColon: bool,
    bases: set<string>,
    tail: Tail,
    tailBehindClass: Tail)

  // ----- The non-directive part of Update -----

  function Top(st: seq<Block>): Block
    requires st != []
  {
    st[|st| - 1]
  }

  function Pop(st: seq<Block>): seq<Block>
    requires st != []
  {
    st[..|st| - 1]
  }

  function SetTop(st: seq<Block>, b: Block): seq<Block>
    requires st != []
  {
    st[|st| - 1 := b]
  }

  predicate SeenOpenBrace(st: seq<Block>) {
    st == [] || Top(st).seenOpenBrace
  }

  function AsmAfter(asm: Asm, depthChange: int, open: int, asmStart: bool): Asm {
    if asm == NoAsm || asm == EndAsm then
      if depthChange != 0 && open == 1 && asmStart then InsideAsm else NoAsm
    else if asm == InsideAsm && open == 0 then EndAsm
    else asm
  }

  function CountParentheses(f: Line, st: seq<Block>): seq<Block> {
    if st == [] then st
    else
      var open := Top(st).openParentheses + f.depthChange;
      SetTop(st, Top(st).(openParentheses := open,
                          inlineAsm := AsmAfter(Top(st).inlineAsm, f.depthChange, open, f.asmStart)))
  }

  function NamespaceBlock(d: NamespaceDecl, line: nat): Block {
    NewBlock(Namespace(d.name), line).(seenOpenBrace := d.brace)
  }

  function PushNamespaces(ds: seq<NamespaceDecl>, line: nat, st: seq<Block>): seq<Block> {
    if ds == [] then st else PushNamespaces(ds[1..], line, st + [NamespaceBlock(ds[0], line)])
  }

  predicate AcceptsClass(f: Line, st: seq<Block>) {
    f.classDecl.Some? && (st == [] || Top(st).openParentheses == 0) && !f.classDecl.value.inTemplate
  }

  function DeclareClass(f: Line, st: seq<Block>): seq<Block> {
    if AcceptsClass(f, st)
    then st + [NewBlock(Class(f.classDecl.value.name, f.classDecl.value.isStruct), f.number)]
    else st
  }

  function CheckBegin(f: Line, st: seq<Block>): seq<Block> {
    if SeenOpenBrace(st) || !Top(st).kind.Class? then st
    else
      var derived := Top(st).isDerived || f.bareColon;
      SetTop(st, Top(st).(isDerived := derived,
                          parents := if derived then Top(st).parents + f.bases else Top(st).parents))
  }

  function SetAccess(access: Option<string>, st: seq<Block>): seq<Block> {
    if st == [] || !Top(st).kind.Class? || access.None? then st
    else SetTop(st, Top(st).(access := access.value))
  }

  function BraceBlock(tok: Token, line: nat): Block
    requires tok.OpenBrace?
  {
    if tok.externC then NewBlock(ExternC, line)
    else NewBlock(Plain, line).(inlineAsm := if tok.asm then BlockAsm else NoAsm)
  }

  function Consume(tok: Token, line: nat, st: seq<Block>): seq<Block> {
    match tok
    case OpenBrace(_, _) =>
      if !SeenOpenBrace(st) then SetTop(st, Top(st).(seenOpenBrace := true)) else st + [BraceBlock(tok, line)]
    case SemicolonOrParen => if SeenOpenBrace(st) then st else Pop(st)
    case CloseBrace => if st == [] then st else Pop(st)
  }

  function ConsumeAll(toks: seq<Token>, line: nat, st: seq<Block>): seq<Block> {
    if toks == [] then st else ConsumeAll(toks[1..], line, Consume(toks[0], line, st))
  }

  /** What one line does to the block stack once the directive has been handled. */
  function Effect(f: Line, st: seq<Block>): seq<Block> {
    var st1 := PushNamespaces(f.namespaces, f.number, CountParentheses(f, st));
    var tail := if AcceptsClass(f, st1) then f.tailBehindClass else f.tail;
    ConsumeAll(tail.tokens, f.number, SetAccess(tail.access, CheckBegin(f, DeclareClass(f, st1))))
  }

  /** N ::= empty | ; N | { N } N */
  ghost predicate Nested(toks: seq<Token>)
    decreases |toks|
  {
    toks == [] ||
    match toks[0]
    case SemicolonOrParen => Nested(toks[1..])
    case OpenBrace(_, _) =>
      exists k :: 0 < k < |toks| && toks[k].CloseBrace? && Nested(toks[1..k]) && Nested(toks[k + 1..])
    case CloseBrace => false
  }

  lemma {:induction false} ConsumeConcat(a: seq<Token>, b: seq<Token>, line: nat, st: seq<Block>)
    ensures ConsumeAll(a + b, line, st) == ConsumeAll(b, line, ConsumeAll(a, line, st))
    decreases |a|
  {
    hide Consume;
    if a == [] {
      assert a + b == b;
    } else {
      ConsumeConcat(a[1..], b, line, Consume(a[0], line, st));
      assert (a + b)[1..] == a[1..] + b;
    }
  }

  lemma NestedFirst(toks: seq<Token>) returns (k: nat)
    requires Nested(toks) && toks != []
    ensures match toks[0]
      case SemicolonOrParen => Nested(toks[1..])
      case OpenBrace(_, _) => 0 < k < |toks| && toks[k].CloseBrace? && Nested(toks[1..k]) && Nested(toks[k + 1..])
      case CloseBrace => false
  {
    k := 0;
    if toks[0].OpenBrace? {
      k :| 0 < k < |toks| && toks[k].CloseBrace? && Nested(toks[1..k]) && Nested(toks[k + 1..]);
    }
  }

  lemma BraceCancels(open: Token, close: Token, line: nat, st: seq<Block>)
    requires open.OpenBrace? && close.CloseBrace? && SeenOpenBrace(st)
    ensures SeenOpenBrace(Consume(open, line, st)) && Consume(close, line, Consume(open, line, st)) == st
  {
  }

  /** Inside a block whose brace has been seen, properly nested braces leave the stack as it was. */
  lemma {:induction false} NestedBracesCancel(toks: seq<Token>, line: nat, st: seq<Block>)
    requires Nested(toks) && SeenOpenBrace(st)
    ensures ConsumeAll(toks, line, st) == st
    decreases |toks|
  {
    hide Nested, SeenOpenBrace;
    if toks == [] {
    } else {
      var k := NestedFirst(toks);
      if toks[0].SemicolonOrParen? {
        NestedBracesCancel(toks[1..], line, st);
      } else {
        hide Consume, ConsumeAll;
        BraceCancels(toks[0], toks[k], line, st);
        NestedBracesCancel(toks[1..k], line, Consume(toks[0], line, st));
        NestedBracesCancel(toks[k + 1..], line, st);
        GroupConsumed(toks, k, line, st);
      }
    }
  }

  lemma GroupConsumed(toks: seq<Token>, k: nat, line: nat, st: seq<Block>)
    requires 0 < k < |toks|
    ensures ConsumeAll(toks, line, st) ==
            ConsumeAll(toks[k + 1..], line,
                       Consume(toks[k], line, ConsumeAll(toks[1..k], line, Consume(toks[0], line, st))))
  {
    hide Consume;
    ConsumeConcat(toks[1..k], toks[k..], line, Consume(toks[0], line, st));
    assert toks[1..] == toks[1..k] + toks[k..];
    assert toks[k..][1..] == toks[k + 1..];
  }

  // ----- Directives -----

  datatype Checkpoint = Checkpoint(stackBeforeIf: seq<Block>, stackBeforeElse: seq<Block>, seenElse: bool)

  datatype State = State(stack: seq<Block>, pp: seq<Checkpoint>)

  function UpdatePreprocessor(d: Directive, s: State): State {
    match d
    case IfLine => s.(pp := s.pp + [Checkpoint(s.stack, [], false)])
    case ElseLine =>
      if s.pp == [] then s
      else
        var n := |s.pp| - 1;
        var c := s.pp[n];
        State(c.stackBeforeIf,
              if c.seenElse then s.pp else s.pp[n := c.(seenElse := true, stackBeforeElse := s.stack)])
    case EndifLine =>
      if s.pp == [] then s
      else
        var n := |s.pp| - 1;
        State(if s.pp[n].seenElse then s.pp[n].stackBeforeElse else s.stack, s.pp[..n])
    case NoDirective => s
  }

  function Next(s: State, f: Line): State {
    var s' := UpdatePreprocessor(f.directive, s);
    s'.(stack := Effect(f, s'.stack))
  }

  function Run(s: State, lines: seq<Line>): State
    decreases |lines|
  {
    if lines == [] then s else Run(Next(s, lines[0]), lines[1..])
  }

  const START := State([], [])

  // ----- Deleting the alternatives -----

  /** For each open conditional, whether its first `#else` or `#elif` has been passed. */
  function Passed(d: Directive, open: seq<bool>): seq<bool> {
    match d
    case IfLine => open + [false]
    case ElseLine => if open == [] then open else open[|open| - 1 := true]
    case EndifLine => if open == [] then open else open[..|open| - 1]
    case NoDirective => open
  }

  /** The lines with every region from a first `#else`/`#elif` up to its `#endif` deleted. */
  function Elide(lines: seq<Line>, open: seq<bool>): seq<Line> {
    if lines == [] then []
    else
      var open' := Passed(lines[0].directive, open);
      (if true in open' then [] else [lines[0]]) + Elide(lines[1..], open')
  }

  function PassedAll(lines: seq<Line>, open: seq<bool>): seq<bool> {
    if lines == [] then open else PassedAll(lines[1..], Passed(lines[0].directive, open))
  }

  // ----- The deleted regions leave no trace -----

  function Seen(pp: seq<Checkpoint>): seq<bool> {
    seq(|pp|, i requires 0 <= i < |pp| => pp[i].seenElse)
  }

  /** `d` is the state of the shortened file where the full file is in `s`. */
  ghost predicate Tracks(s: State, d: State) {
    if true !in Seen(s.pp) then d == s
    else exists k :: OutermostPassed(s.pp, k) && d == Rewound(s, k)
  }

  ghost predicate OutermostPassed(pp: seq<Checkpoint>, k: nat) {
    k < |pp| && pp[k].seenElse && forall i :: 0 <= i < k ==> !pp[i].seenElse
  }

  /** The full file's state when it reached the first `#else` of its conditional number `k`. */
  function Rewound(s: State, k: nat): State
    requires k < |s.pp|
  {
    State(s.pp[k].stackBeforeElse, s.pp[..k] + [Checkpoint(s.pp[k].stackBeforeIf, [], false)])
  }

  /** Conditionals that have not reached an `#else` have saved nothing for it. */
  ghost predicate Clean(s: State) {
    forall i :: 0 <= i < |s.pp| && !s.pp[i].seenElse ==> s.pp[i].stackBeforeElse == []
  }

  lemma SeenStep(s: State, f: Line)
    ensures Seen(Next(s, f).pp) == Passed(f.directive, Seen(s.pp))
  {
    var s' := Next(s, f);
    assert forall i :: 0 <= i < |s'.pp| ==> Seen(s'.pp)[i] == s'.pp[i].seenElse;
  }

  lemma CleanStep(s: State, f: Line)
    requires Clean(s)
    ensures Clean(Next(s, f))
  {
  }

  lemma NoneSeen(pp: seq<Checkpoint>)
    ensures true in Seen(pp) <==> exists i :: 0 <= i < |pp| && pp[i].seenElse
  {
    if i :| 0 <= i < |pp| && pp[i].seenElse {
      assert Seen(pp)[i];
    }
  }

  /** No conditional is past its `#else` before the line. */
  lemma StepFromLive(s: State, f: Line)
    requires Clean(s) && true !in Seen(s.pp)
    ensures Tracks(Next(s, f), if true in Seen(Next(s, f).pp) then s else Next(s, f))
  {
    hide Effect, Run, Elide, Seen;
    NoneSeen(s.pp);
    NoneSeen(Next(s, f).pp);
    var s' := Next(s, f);
    if true in Seen(s'.pp) {
      var k := |s.pp| - 1;
      assert OutermostPassed(s'.pp, k);
      assert Rewound(s', k) == s;
    }
  }

  /** Conditional `k` is past its `#else`: only its own `#endif` brings the shortened file on. */
  lemma StepFromPassed(s: State, k: nat, f: Line)
    requires Clean(s) && OutermostPassed(s.pp, k)
    ensures var d, s' := Rewound(s, k), Next(s, f);
            Tracks(s', if true in Seen(s'.pp) then d else Next(d, f))
  {
    hide Effect, Run, Elide, Seen;
    var d, s' := Rewound(s, k), Next(s, f);
    NoneSeen(s'.pp);
    if f.directive == EndifLine && k == |s.pp| - 1 {
      assert d.pp[..k] == s.pp[..k];
      assert Next(d, f) == s';
    } else {
      assert OutermostPassed(s'.pp, k);
      assert Rewound(s', k) == d;
    }
  }

  lemma {:induction false} ElideTracks(s: State, d: State, lines: seq<Line>)
    requires Clean(s) && Tracks(s, d)
    ensures Tracks(Run(s, lines), Run(d, Elide(lines, Seen(s.pp))))
    ensures Seen(Run(s, lines).pp) == PassedAll(lines, Seen(s.pp))
    decreases |lines|
  {
    if lines == [] {
    } else {
      var f := lines[0];
      var s' := Next(s, f);
      SeenStep(s, f);
      CleanStep(s, f);
      var d' := if true in Seen(s'.pp) then d else Next(d, f);
      if true !in Seen(s.pp) {
        StepFromLive(s, f);
      } else {
        var k :| OutermostPassed(s.pp, k) && d == Rewound(s, k);
        StepFromPassed(s, k, f);
      }
      ElideTracks(s', d', lines[1..]);
      RunElided(d, f, Seen(s'.pp), lines[1..]);
    }
  }

  lemma RunElided(d: State, f: Line, open: seq<bool>, rest: seq<Line>)
    ensures Run(d, (if true in open then [] else [f]) + Elide(rest, open)) ==
            Run(if true in open then d else Next(d, f), Elide(rest, open))
  {
    var tail := Elide(rest, open);
    if true !in open {
      assert ([f] + tail)[0] == f && ([f] + tail)[1..] == tail;
    } else {
      assert [] + tail == tail;
    }
  }

  /**
    Any file whatever, read up to any point: the shortened file is in the state the full file had when
    it passed the outermost open `#else`; the two states are the same exactly when no `#else` is open.
   */
  lemma AlternativesLeaveNoTrace(lines: seq<Line>)
    ensures Tracks(Run(START, lines), Run(START, Elide(lines, [])))
    ensures true !in PassedAll(lines, []) <==> Run(START, lines) == Run(START, Elide(lines, []))
  {
    assert Seen(START.pp) == [];
    ElideTracks(START, START, lines);
    var s, d := Run(START, lines), Run(START, Elide(lines, []));
    if true in Seen(s.pp) {
      var k: nat :| OutermostPassed(s.pp, k) && d == Rewound(s, k);
      assert !d.pp[k].seenElse;
    }
  }

  /** Files that differ only inside their alternatives end with the same stack. */
  lemma AlternativesAreIrrelevant(a: seq<Line>, b: seq<Line>)
    requires Elide(a, []) == Elide(b, [])
    requires true !in PassedAll(a, []) && true !in PassedAll(b, [])
    ensures Run(START, a).stack == Run(START, b).stack
  {
    AlternativesLeaveNoTrace(a);
    AlternativesLeaveNoTrace(b);
  }
}
