/**
  What a line means for the block stack: the declarations and braces it holds, as a word over heads,
  braces and semicolons, and the blocks that such a word leaves open.
 */
module BlockGrammar {
  import opened Prelude
  import opened NestingModel

  /** A declaration that waits for its brace, a namespace with its brace, a brace, a semicolon, an end. */
  datatype Sym = Head(b: Block) | Opened(b: Block) | Brace(b: Block) | Semi | End

  /** C ::= empty | ; C | { C } C | head ; C | head { C } C | namespace{ C } C */
  ghost predicate Complete(w: seq<Sym>)
    decreases |w|
  {
    w == [] ||
    match w[0]
    case Semi => Complete(w[1..])
    case Head(_) =>
      |w| > 1 && ((w[1].Semi? && Complete(w[2..])) ||
                  (w[1].Brace? && exists k :: 1 < k < |w| && w[k].End? && Complete(w[2..k]) && Complete(w[k + 1..])))
    case Opened(_) => exists k :: 0 < k < |w| && w[k].End? && Complete(w[1..k]) && Complete(w[k + 1..])
    case Brace(_) => exists k :: 0 < k < |w| && w[k].End? && Complete(w[1..k]) && Complete(w[k + 1..])
    case End => false
  }

  /** The word leaves exactly these blocks open: between them everything is complete. */
  ghost predicate Leaves(w: seq<Sym>, bs: seq<Block>)
    decreases |w|
  {
    exists k :: 0 <= k <= |w| && Complete(w[..k]) && LeavesFirst(w[k..], bs)
  }

  ghost predicate LeavesFirst(w: seq<Sym>, bs: seq<Block>)
    decreases |w|, 0
  {
    if w == [] then bs == []
    else if bs == [] then false
    else match w[0]
      case Head(b) =>
        if |w| == 1 then bs == [b]
        else w[1].Brace? && bs[0] == b.(seenOpenBrace := true) && Leaves(w[2..], bs[1..])
      case Opened(b) => bs[0] == b && Leaves(w[1..], bs[1..])
      case Brace(b) => bs[0] == b && Leaves(w[1..], bs[1..])
      case _ => false
  }

  // ----- What a line says -----

  /** A block as it is pushed: nothing counted, no assembly, no access level but that of its kind. */
  function Fresh(kind: Kind, line: nat, seen: bool): Block {
    Block(kind, line, seen, 0, NoAsm, "", false, {})
  }

  function NamespaceSym(d: NamespaceDecl, line: nat): Sym {
    if d.brace then Opened(Fresh(Namespace(d.name), line, true)) else Head(Fresh(Namespace(d.name), line, false))
  }

  function NamespaceSyms(ds: seq<NamespaceDecl>, line: nat): seq<Sym> {
    seq(|ds|, i requires 0 <= i < |ds| => NamespaceSym(ds[i], line))
  }

  /** A class is private by default and a struct public; the rest of the line may say otherwise. */
  function ClassHead(f: Line): Block
    requires f.classDecl.Some?
  {
    var c := f.classDecl.value;
    var access := if f.tailBehindClass.access.Some? then f.tailBehindClass.access.value
                  else if c.isStruct then "public" else "private";
    Fresh(Class(c.name, c.isStruct), f.number, false)
      .(access := access, isDerived := f.bareColon, parents := if f.bareColon then f.bases else {})
  }

  function TokenSym(tok: Token, line: nat): Sym {
    match tok
    case SemicolonOrParen => Semi
    case CloseBrace => End
    case OpenBrace(externC, asm) =>
      Brace(Fresh(if externC then ExternC else Plain, line, true)
              .(inlineAsm := if asm && !externC then BlockAsm else NoAsm))
  }

  function TokenSyms(toks: seq<Token>, line: nat): seq<Sym> {
    seq(|toks|, i requires 0 <= i < |toks| => TokenSym(toks[i], line))
  }

  /** `open` is the number of parentheses open before the line in the block that it starts in, if any. */
  predicate Declares(f: Line, open: Option<int>) {
    f.classDecl.Some? && !f.classDecl.value.inTemplate &&
    (f.namespaces != [] || open.None? || open.value + f.depthChange == 0)
  }

  /** Everything the line declares, opens and closes, in order. */
  function Word(f: Line, open: Option<int>): seq<Sym> {
    NamespaceSyms(f.namespaces, f.number) +
    (if Declares(f, open) then [Head(ClassHead(f))] + TokenSyms(f.tailBehindClass.tokens, f.number)
     else TokenSyms(f.tail.tokens, f.number))
  }

  // ----- The effect of a word -----

  function Apply(x: Sym, st: seq<Block>): seq<Block> {
    match x
    case Head(b) => st + [b]
    case Opened(b) => st + [b]
    case Brace(b) => if SeenOpenBrace(st) then st + [b] else st[|st| - 1 := st[|st| - 1].(seenOpenBrace := true)]
    case Semi => if SeenOpenBrace(st) then st else st[..|st| - 1]
    case End => if st == [] then st else st[..|st| - 1]
  }

  function Play(w: seq<Sym>, st: seq<Block>): seq<Block> {
    if w == [] then st else Play(w[1..], Apply(w[0], st))
  }

  lemma {:induction false} PlayConcat(a: seq<Sym>, b: seq<Sym>, st: seq<Block>)
    ensures Play(a + b, st) == Play(b, Play(a, st))
    decreases |a|
  {
    hide Apply;
    if a == [] {
      assert a + b == b;
    } else {
      PlayConcat(a[1..], b, Apply(a[0], st));
      assert (a + b)[1..] == a[1..] + b;
    }
  }

  /** Heads only wait at the top of the stack. */
  ghost predicate WellHeaded(w: seq<Sym>) {
    forall i :: 0 <= i < |w| ==>
      (w[i].Head? ==> !w[i].b.seenOpenBrace) && (w[i].Opened? || w[i].Brace? ==> w[i].b.seenOpenBrace)
  }

  /** An opened block with complete contents and its end. */
  lemma PlayBlock(w: seq<Sym>, j: nat, k: nat, st: seq<Block>, b: Block)
    requires j <= k < |w| && w[k].End? && b.seenOpenBrace
    requires Play(w[j..k], st + [b]) == st + [b] && Play(w[k + 1..], st) == st
    ensures Play(w[j..], st + [b]) == st
  {
    assert w[j..] == w[j..k] + w[k..];
    PlayConcat(w[j..k], w[k..], st + [b]);
    assert w[k..][1..] == w[k + 1..];
    assert (st + [b])[..|st|] == st;
  }

  lemma CompleteFirst(w: seq<Sym>) returns (k: nat)
    requires Complete(w) && w != []
    ensures match w[0]
      case Semi => Complete(w[1..])
      case Head(_) => |w| > 1 && ((w[1].Semi? && Complete(w[2..])) ||
                                  (w[1].Brace? && 1 < k < |w| && w[k].End? && Complete(w[2..k]) && Complete(w[k + 1..])))
      case End => false
      case _ => 0 < k < |w| && w[k].End? && Complete(w[1..k]) && Complete(w[k + 1..])
  {
    k := 0;
    match w[0]
    case Semi =>
    case Head(_) =>
      if !w[1].Semi? {
        k :| 1 < k < |w| && w[k].End? && Complete(w[2..k]) && Complete(w[k + 1..]);
      }
    case Opened(_) =>
      k :| 0 < k < |w| && w[k].End? && Complete(w[1..k]) && Complete(w[k + 1..]);
    case Brace(_) =>
      k :| 0 < k < |w| && w[k].End? && Complete(w[1..k]) && Complete(w[k + 1..]);
    case End =>
  }

  lemma HeadedPart(w: seq<Sym>, i: nat, k: nat)
    requires WellHeaded(w) && i <= k <= |w|
    ensures WellHeaded(w[i..k]) && WellHeaded(w[i..])
    ensures i < |w| && w[i].Head? ==> !w[i].b.seenOpenBrace
    ensures i < |w| && (w[i].Opened? || w[i].Brace?) ==> w[i].b.seenOpenBrace
  {
  }

  /** A semicolon, a namespace with its brace, or a brace, where no head waits. */
  lemma PlayFirst(w: seq<Sym>, st: seq<Block>)
    requires w != [] && SeenOpenBrace(st) && (w[0].Semi? || w[0].Opened? || w[0].Brace?)
    ensures Play(w, st) == Play(w[1..], if w[0].Semi? then st else st + [w[0].b])
  {
  }

  lemma SeenOnTop(st: seq<Block>, b: Block)
    requires b.seenOpenBrace
    ensures SeenOpenBrace(st + [b])
  {
  }

  /** Complete text leaves nothing behind. */
  lemma {:induction false} PlayComplete(w: seq<Sym>, st: seq<Block>)
    requires Complete(w) && WellHeaded(w) && SeenOpenBrace(st)
    ensures Play(w, st) == st
    decreases |w|, 1
  {
    if w == [] {
    } else {
      hide *;
      var k := CompleteFirst(w);
      HeadedPart(w, 0, |w|);
      match w[0]
      case Semi =>
        HeadedPart(w, 1, |w|);
        PlayFirst(w, st);
        PlayComplete(w[1..], st);
      case Head(b) =>
        PlayHead(w, st);
        if w[1].Semi? {
          HeadedPart(w, 2, |w|);
          PlayComplete(w[2..], st);
        } else {
          PlayRest(w, 2, k, st, b.(seenOpenBrace := true));
        }
      case Opened(b) =>
        PlayFirst(w, st);
        PlayRest(w, 1, k, st, b);
      case Brace(b) =>
        PlayFirst(w, st);
        PlayRest(w, 1, k, st, b);
    }
  }

  lemma {:induction false} PlayRest(w: seq<Sym>, j: nat, k: nat, st: seq<Block>, b: Block)
    requires 0 < j <= k < |w| && w[k].End? && b.seenOpenBrace && WellHeaded(w) && SeenOpenBrace(st)
    requires Complete(w[j..k]) && Complete(w[k + 1..])
    ensures Play(w[j..], st + [b]) == st
    decreases |w|, 0
  {
    hide *;
    HeadedPart(w, j, k);
    HeadedPart(w, k + 1, |w|);
    SeenOnTop(st, b);
    PlayComplete(w[j..k], st + [b]);
    PlayComplete(w[k + 1..], st);
    PlayBlock(w, j, k, st, b);
  }

  /** A head and what follows it. */
  lemma PlayHead(w: seq<Sym>, st: seq<Block>)
    requires |w| > 1 && w[0].Head? && !w[0].b.seenOpenBrace && (w[1].Semi? || w[1].Brace?)
    ensures Play(w, st) == Play(w[2..], if w[1].Semi? then st else st + [w[0].b.(seenOpenBrace := true)])
  {
    var b := w[0].b;
    assert w[1..][1..] == w[2..];
    assert Play(w, st) == Play(w[1..], st + [b]);
    assert (st + [b])[..|st|] == st;
    assert (st + [b])[|st| := b.(seenOpenBrace := true)] == st + [b.(seenOpenBrace := true)];
  }

  /** A word adds to the stack exactly the blocks that it leaves open. */
  lemma {:induction false} PlayLeaves(w: seq<Sym>, bs: seq<Block>, st: seq<Block>)
    requires Leaves(w, bs) && WellHeaded(w) && SeenOpenBrace(st)
    ensures Play(w, st) == st + bs
    decreases |w|, 1
  {
    var k :| 0 <= k <= |w| && Complete(w[..k]) && LeavesFirst(w[k..], bs);
    hide *;
    HeadedPart(w, 0, k);
    assert w[0..k] == w[..k];
    HeadedPart(w, k, |w|);
    PlayComplete(w[..k], st);
    assert w == w[..k] + w[k..];
    PlayConcat(w[..k], w[k..], st);
    PlayLeavesFirst(w[k..], bs, st);
  }

  lemma {:induction false} PlayLeavesFirst(w: seq<Sym>, bs: seq<Block>, st: seq<Block>)
    requires LeavesFirst(w, bs) && WellHeaded(w) && SeenOpenBrace(st)
    ensures Play(w, st) == st + bs
    decreases |w|, 0
  {
    hide Leaves, Complete;
    if w == [] {
    } else {
      var b := w[0].b;
      if w[0].Head? {
        if |w| == 1 {
          assert w[1..] == [];
        } else {
          var seen := b.(seenOpenBrace := true);
          PlayHead(w, st);
          PlayLeaves(w[2..], bs[1..], st + [seen]);
          assert st + [seen] + bs[1..] == st + bs;
        }
      } else {
        PlayLeaves(w[1..], bs[1..], st + [b]);
        assert st + [b] + bs[1..] == st + bs;
      }
    }
  }

  /** The word first ends `m` enclosing blocks and then leaves these blocks open. */
  ghost predicate Shuts(w: seq<Sym>, m: nat, bs: seq<Block>)
    decreases m
  {
    if m == 0 then Leaves(w, bs)
    else exists k :: 0 <= k < |w| && w[k].End? && Complete(w[..k]) && Shuts(w[k + 1..], m - 1, bs)
  }

  function Lower(st: seq<Block>, m: nat): seq<Block> {
    if m <= |st| then st[..|st| - m] else []
  }

  predicate AllSeen(st: seq<Block>) {
    forall i :: 0 <= i < |st| ==> st[i].seenOpenBrace
  }

  lemma {:induction false} PlayShuts(w: seq<Sym>, m: nat, bs: seq<Block>, st: seq<Block>)
    requires Shuts(w, m, bs) && WellHeaded(w) && AllSeen(st)
    ensures Play(w, st) == Lower(st, m) + bs
    decreases m
  {
    hide *;
    SeenBelow(st);
    var k := ShutsFirst(w, m, bs);
    if m == 0 {
      PlayLeaves(w, bs, st);
    } else {
      HeadedPart(w, 0, k);
      assert w[0..k] == w[..k];
      HeadedPart(w, k + 1, |w|);
      PlayComplete(w[..k], st);
      assert w == w[..k] + w[k..];
      PlayConcat(w[..k], w[k..], st);
      PlayEnd(w, k, st);
      PlayShuts(w[k + 1..], m - 1, bs, Lower(st, 1));
      LowerTwice(st, m);
    }
  }

  lemma ShutsFirst(w: seq<Sym>, m: nat, bs: seq<Block>) returns (k: nat)
    requires Shuts(w, m, bs)
    ensures m == 0 ==> Leaves(w, bs)
    ensures m > 0 ==> k < |w| && w[k].End? && Complete(w[..k]) && Shuts(w[k + 1..], m - 1, bs)
  {
    k := 0;
    if m > 0 {
      k :| 0 <= k < |w| && w[k].End? && Complete(w[..k]) && Shuts(w[k + 1..], m - 1, bs);
    }
  }

  lemma PlayEnd(w: seq<Sym>, k: nat, st: seq<Block>)
    requires k < |w| && w[k].End?
    ensures Play(w[k..], st) == Play(w[k + 1..], Lower(st, 1))
  {
    assert w[k..][1..] == w[k + 1..];
  }

  lemma SeenBelow(st: seq<Block>)
    requires AllSeen(st)
    ensures SeenOpenBrace(st) && AllSeen(Lower(st, 1)) && Lower(st, 0) == st
  {
  }

  lemma LowerTwice(st: seq<Block>, m: nat)
    requires m > 0
    ensures Lower(Lower(st, 1), m - 1) == Lower(st, m)
  {
  }

  /** Complete text leaves nothing open. */
  lemma CompleteLeaves(w: seq<Sym>)
    requires Complete(w)
    ensures Leaves(w, [])
  {
    assert w[..|w|] == w && w[|w|..] == [];
  }
}
