/**
  `NestingState` on the heap. Blocks are objects that `Update` changes in place; checkpoints hold
  copies of whole stacks, and `#endif` puts a saved stack back without copying it.
 */
module NestingState {
  import opened Prelude
  import M = NestingModel

  class BlockInfo {
    const kind: M.Kind
    const startingLine: nat
    var seenOpenBrace: bool
    var openParentheses: int
    var inlineAsm: M.Asm
    var access: string
    var isDerived: bool
    var parents: set<string>

    function Value(): M.Block
      reads this
    {
      M.Block(kind, startingLine, seenOpenBrace, openParentheses, inlineAsm, access, isDerived, parents)
    }

    constructor (v: M.Block)
      ensures Value() == v
    {
      kind, startingLine, seenOpenBrace := v.kind, v.startingLine, v.seenOpenBrace;
      openParentheses, inlineAsm := v.openParentheses, v.inlineAsm;
      access, isDerived, parents := v.access, v.isDerived, v.parents;
    }
  }

  function Values(bs: seq<BlockInfo>): seq<M.Block>
    reads bs
  {
    seq(|bs|, i requires 0 <= i < |bs| reads bs => bs[i].Value())
  }

  ghost predicate Distinct(bs: seq<BlockInfo>) {
    forall i, j :: 0 <= i < j < |bs| ==> bs[i] != bs[j]
  }

  ghost function Elements(bs: seq<BlockInfo>): set<BlockInfo> {
    set b | b in bs
  }

  datatype PreprocessorInfo = PreprocessorInfo(
    stackBeforeIf: seq<BlockInfo>,
    stackBeforeElse: seq<BlockInfo>,
    seenElse: bool)
  {
    ghost function Blocks(): set<BlockInfo> {
      Elements(stackBeforeIf) + Elements(stackBeforeElse)
    }

    ghost predicate Apart() {
      Distinct(stackBeforeIf) && Distinct(stackBeforeElse) && Elements(stackBeforeIf) !! Elements(stackBeforeElse)
    }

    ghost function Value(): M.Checkpoint
      reads stackBeforeIf, stackBeforeElse
    {
      M.Checkpoint(Values(stackBeforeIf), Values(stackBeforeElse), seenElse)
    }
  }

  /** `copy.deepcopy` of a stack: new objects with the same contents. */
  method DeepCopy(bs: seq<BlockInfo>) returns (cs: seq<BlockInfo>)
    ensures |cs| == |bs| && Distinct(cs) && Values(cs) == Values(bs)
    ensures forall c :: c in cs ==> fresh(c)
  {
    cs := [];
    for i := 0 to |bs|
      invariant |cs| == i && Distinct(cs)
      invariant forall c :: c in cs ==> fresh(c)
      invariant forall k :: 0 <= k < i ==> cs[k].Value() == bs[k].Value()
    {
      var c := new BlockInfo(bs[i].Value());
      cs := cs + [c];
    }
  }

  class NestingState {
    var stack: seq<BlockInfo>
    var ppStack: seq<PreprocessorInfo>

    /** The live stack and all saved stacks are pairwise disjoint and without repetition. */
    ghost predicate Valid()
      reads this
    {
      && Distinct(stack)
      && (forall k :: 0 <= k < |ppStack| ==> ppStack[k].Apart() && ppStack[k].Blocks() !! Elements(stack))
      && (forall j, k :: 0 <= j < k < |ppStack| ==> ppStack[j].Blocks() !! ppStack[k].Blocks())
    }

    ghost function Saved(): set<BlockInfo>
      reads this
    {
      set k, b | 0 <= k < |ppStack| && b in ppStack[k].Blocks() :: b
    }

    ghost function Checkpoints(): seq<M.Checkpoint>
      reads this, Saved()
    {
      seq(|ppStack|, k requires 0 <= k < |ppStack| reads this, Saved() =>
        assert forall b :: b in ppStack[k].Blocks() ==> b in Saved();
        ppStack[k].Value())
    }

    ghost function Model(): M.State
      reads this, stack, Saved()
    {
      M.State(Values(stack), Checkpoints())
    }

    lemma InSaved(k: nat, b: BlockInfo)
      requires k < |ppStack| && b in ppStack[k].Blocks()
      ensures b in Saved()
    {
    }

    constructor ()
      ensures Valid() && Model() == M.START
    {
      stack, ppStack := [], [];
    }

    /** `#if` saves a copy of the stack. */
    method BeginIf()
      requires Valid()
      modifies this`ppStack
      ensures Valid() && Model() == M.UpdatePreprocessor(M.IfLine, old(Model()))
      ensures forall b :: b in Saved() ==> b in old(Saved()) || fresh(b)
    {
      var copy := DeepCopy(stack);
      ppStack := ppStack + [PreprocessorInfo(copy, [], false)];
      assert Values([]) == [];
      assert Checkpoints() == old(Checkpoints()) + [M.Checkpoint(Values(stack), [], false)];
    }

    method SaveBeforeElse()
      requires Valid() && ppStack != []
      modifies this`ppStack
      ensures Valid() && |ppStack| == |old(ppStack)|
      ensures var n := |ppStack| - 1;
              Checkpoints() == old(Checkpoints())[n := old(Checkpoints())[n].(seenElse := true, stackBeforeElse := Values(stack))]
      ensures forall b :: b in Saved() ==> b in old(Saved()) || fresh(b)
    {
      var n := |ppStack| - 1;
      var copy := DeepCopy(stack);
      ppStack := ppStack[n := ppStack[n].(seenElse := true, stackBeforeElse := copy)];
    }

    method RestoreBeforeIf()
      requires Valid() && ppStack != []
      modifies this`stack
      ensures Valid() && Checkpoints() == old(Checkpoints()) && Saved() == old(Saved())
      ensures Values(stack) == Checkpoints()[|ppStack| - 1].stackBeforeIf && forall b :: b in stack ==> fresh(b)
    {
      stack := DeepCopy(ppStack[|ppStack| - 1].stackBeforeIf);
    }

    /** The first `#else` saves a copy; every `#else` goes on with a copy of what `#if` saved. */
    method BeginElse()
      requires Valid()
      modifies this
      ensures Valid() && Model() == M.UpdatePreprocessor(M.ElseLine, old(Model()))
      ensures stack == old(stack) || forall b :: b in stack ==> fresh(b)
      ensures forall b :: b in Saved() ==> b in old(Saved()) || fresh(b)
    {
      if ppStack != [] {
        var n := |ppStack| - 1;
        if !ppStack[n].seenElse {
          SaveBeforeElse();
        }
        RestoreBeforeIf();
      }
    }

    /** `#endif` puts the saved stack itself back; no other reference to it is left. */
    method EndIf()
      requires Valid()
      modifies this
      ensures Valid() && Model() == M.UpdatePreprocessor(M.EndifLine, old(Model()))
      ensures forall b :: b in stack ==> b in old(stack) || b in old(Saved())
      ensures forall b :: b in Saved() ==> b in old(Saved())
    {
      if ppStack != [] {
        var n := |ppStack| - 1;
        if ppStack[n].seenElse {
          forall b | b in ppStack[n].stackBeforeElse ensures b in Saved() {
            InSaved(n, b);
          }
          stack := ppStack[n].stackBeforeElse;
        }
        ppStack := ppStack[..n];
      }
    }

    method UpdatePreprocessor(d: M.Directive)
      requires Valid()
      modifies this
      ensures Valid() && Model() == M.UpdatePreprocessor(d, old(Model()))
      ensures forall b :: b in stack || b in Saved() ==> b in old(stack) || b in old(Saved()) || fresh(b)
    {
      match d
      case IfLine => BeginIf();
      case ElseLine => BeginElse();
      case EndifLine => EndIf();
      case NoDirective =>
    }

    // ----- The rest of Update: only the live stack and its blocks change -----

    lemma SavedApart()
      requires Valid()
      ensures Saved() !! Elements(stack)
    {
    }

    method Push(v: M.Block)
      requires Valid()
      modifies this`stack
      ensures Valid() && Values(stack) == old(Values(stack)) + [v] && Checkpoints() == old(Checkpoints())
      ensures forall i :: 0 <= i < |stack| ==> stack[i] in old(stack) || fresh(stack[i])
    {
      var b := new BlockInfo(v);
      stack := stack + [b];
    }

    method Pop()
      requires Valid() && stack != []
      modifies this`stack
      ensures Valid() && Values(stack) == M.Pop(old(Values(stack))) && Checkpoints() == old(Checkpoints())
      ensures forall b :: b in stack ==> b in old(stack)
    {
      stack := stack[..|stack| - 1];
    }

    predicate SeenOpenBrace()
      reads this, stack
      ensures SeenOpenBrace() == M.SeenOpenBrace(Values(stack))
    {
      stack == [] || stack[|stack| - 1].seenOpenBrace
    }

    method CountParentheses(f: M.Line)
      requires Valid()
      modifies stack
      ensures Values(stack) == M.CountParentheses(f, old(Values(stack))) && Checkpoints() == old(Checkpoints())
    {
      SavedApart();
      if stack != [] {
        var inner := stack[|stack| - 1];
        inner.openParentheses := inner.openParentheses + f.depthChange;
        if inner.inlineAsm == M.NoAsm || inner.inlineAsm == M.EndAsm {
          if f.depthChange != 0 && inner.openParentheses == 1 && f.asmStart {
            inner.inlineAsm := M.InsideAsm;
          } else {
            inner.inlineAsm := M.NoAsm;
          }
        } else if inner.inlineAsm == M.InsideAsm && inner.openParentheses == 0 {
          inner.inlineAsm := M.EndAsm;
        }
      }
    }

    method PushNamespaces(ds: seq<M.NamespaceDecl>, line: nat)
      requires Valid()
      modifies this`stack
      ensures Valid() && Checkpoints() == old(Checkpoints())
      ensures Values(stack) == M.PushNamespaces(ds, line, old(Values(stack)))
      ensures forall i :: 0 <= i < |stack| ==> stack[i] in old(stack) || fresh(stack[i])
    {
      var rest := ds;
      while rest != []
        invariant Valid() && Checkpoints() == old(Checkpoints())
        invariant M.PushNamespaces(rest, line, Values(stack)) == M.PushNamespaces(ds, line, old(Values(stack)))
        invariant forall i :: 0 <= i < |stack| ==> stack[i] in old(stack) || fresh(stack[i])
        decreases |rest|
      {
        Push(M.NewBlock(M.Namespace(rest[0].name), line).(seenOpenBrace := rest[0].brace));
        rest := rest[1..];
      }
    }

    method DeclareClass(f: M.Line) returns (accepted: bool)
      requires Valid()
      modifies this`stack
      ensures Valid() && Checkpoints() == old(Checkpoints())
      ensures accepted == M.AcceptsClass(f, old(Values(stack)))
      ensures Values(stack) == M.DeclareClass(f, old(Values(stack)))
      ensures forall i :: 0 <= i < |stack| ==> stack[i] in old(stack) || fresh(stack[i])
    {
      accepted := f.classDecl.Some? && (stack == [] || stack[|stack| - 1].openParentheses == 0)
                  && !f.classDecl.value.inTemplate;
      if accepted {
        Push(M.NewBlock(M.Class(f.classDecl.value.name, f.classDecl.value.isStruct), f.number));
      }
    }

    method CheckBegin(f: M.Line)
      requires Valid()
      modifies stack
      ensures Values(stack) == M.CheckBegin(f, old(Values(stack))) && Checkpoints() == old(Checkpoints())
    {
      SavedApart();
      if !SeenOpenBrace() {
        var top := stack[|stack| - 1];
        if top.kind.Class? {
          if f.bareColon {
            top.isDerived := true;
          }
          if top.isDerived {
            top.parents := top.parents + f.bases;
          }
        }
      }
    }

    method SetAccess(access: Option<string>)
      requires Valid()
      modifies stack
      ensures Values(stack) == M.SetAccess(access, old(Values(stack))) && Checkpoints() == old(Checkpoints())
    {
      SavedApart();
      if stack != [] && stack[|stack| - 1].kind.Class? && access.Some? {
        stack[|stack| - 1].access := access.value;
      }
    }

    method Consume(tok: M.Token, line: nat)
      requires Valid()
      modifies this`stack, stack
      ensures Valid() && Values(stack) == M.Consume(tok, line, old(Values(stack)))
      ensures Checkpoints() == old(Checkpoints())
      ensures forall i :: 0 <= i < |stack| ==> stack[i] in old(stack) || fresh(stack[i])
    {
      SavedApart();
      match tok
      case OpenBrace(externC, asm) =>
        if !SeenOpenBrace() {
          stack[|stack| - 1].seenOpenBrace := true;
        } else if externC {
          Push(M.NewBlock(M.ExternC, line));
        } else {
          Push(M.NewBlock(M.Plain, line).(inlineAsm := if asm then M.BlockAsm else M.NoAsm));
        }
      case SemicolonOrParen =>
        if !SeenOpenBrace() {
          Pop();
        }
      case CloseBrace =>
        if stack != [] {
          Pop();
        }
    }

    method ConsumeAll(toks: seq<M.Token>, line: nat)
      requires Valid()
      modifies this`stack, stack
      ensures Valid() && Values(stack) == M.ConsumeAll(toks, line, old(Values(stack)))
      ensures Checkpoints() == old(Checkpoints())
      ensures forall i :: 0 <= i < |stack| ==> stack[i] in old(stack) || fresh(stack[i])
    {
      var rest := toks;
      while rest != []
        invariant Valid() && Checkpoints() == old(Checkpoints())
        invariant M.ConsumeAll(rest, line, Values(stack)) == M.ConsumeAll(toks, line, old(Values(stack)))
        invariant forall i :: 0 <= i < |stack| ==> stack[i] in old(stack) || fresh(stack[i])
        decreases |rest|
      {
        Consume(rest[0], line);
        rest := rest[1..];
      }
    }

    method UpdateStack(f: M.Line)
      requires Valid()
      modifies this`stack, stack
      ensures Valid() && Values(stack) == M.Effect(f, old(Values(stack)))
      ensures Checkpoints() == old(Checkpoints())
      ensures forall i :: 0 <= i < |stack| ==> stack[i] in old(stack) || fresh(stack[i])
    {
      hide M.CountParentheses, M.PushNamespaces, M.DeclareClass, M.CheckBegin, M.SetAccess, M.ConsumeAll;
      CountParentheses(f);
      PushNamespaces(f.namespaces, f.number);
      var accepted := DeclareClass(f);
      var tail := if accepted then f.tailBehindClass else f.tail;
      CheckBegin(f);
      SetAccess(tail.access);
      ConsumeAll(tail.tokens, f.number);
    }

    ghost function Footprint(): set<BlockInfo>
      reads this
    {
      Elements(stack) + Saved()
    }

    /** One line: the abstract state moves as `Next` says and the stacks stay disjoint. */
    method Update(f: M.Line)
      requires Valid()
      modifies this, Footprint()
      ensures Valid() && Model() == M.Next(old(Model()), f)
      ensures forall b :: b in Footprint() ==> b in old(Footprint()) || fresh(b)
    {
      UpdatePreprocessor(f.directive);
      UpdateStack(f);
    }
  }

  /** A whole file, from an empty stack. */
  method ProcessFile(lines: seq<M.Line>) returns (ns: NestingState)
    ensures ns.Valid() && ns.Model() == M.Run(M.START, lines)
    ensures true !in M.PassedAll(lines, []) ==>
            Values(ns.stack) == M.Run(M.START, M.Elide(lines, [])).stack
  {
    ns := new NestingState();
    var rest := lines;
    while rest != []
      invariant fresh(ns) && ns.Valid() && forall b :: b in ns.Footprint() ==> fresh(b)
      invariant M.Run(ns.Model(), rest) == M.Run(M.START, lines)
      decreases |rest|
    {
      ns.Update(rest[0]);
      rest := rest[1..];
    }
    M.AlternativesLeaveNoTrace(lines);
  }
}
