/** `NestingState.InTemplateArgumentList`: jumps from one telling character to the next, and over `<...>`. */
module TemplateArguments {
  import opened ForwardScan

  /** The characters the search pattern stops at. */
  predicate Telling(c: char) {
    c == '{' || c == '}' || c == ';' || c == '=' || c == '[' || c == ']' || c == '.' || c == '<' || c == '>'
  }

  predicate EndsDeclaration(c: char) {
    c == '{' || c == '}' || c == ';'
  }

  /**
    Character by character: a declaration end says no, any other telling character says yes, and a '<'
    is jumped over together with its arguments when it can be closed.
   */
  function InArguments(lines: seq<string>, l: nat, pos: nat): bool
    decreases |lines| - l, if l < |lines| then |lines[l]| - pos else 0
  {
    if l >= |lines| then false
    else if pos >= |lines[l]| then InArguments(lines, l + 1, 0)
    else
      var c := lines[l][pos];
      if EndsDeclaration(c) then false
      else if c == '<' then
        match ClosePosition(lines, l, pos)
        case None => false
        case Some((l2, e)) => InArguments(lines, l2, e)
      else Telling(c) || InArguments(lines, l, pos + 1)
  }

  /** Where the pattern `^[^{};=\[\]\.<>]*(.)` puts its last character; `pos` must be inside the line. */
  function StopAt(line: string, pos: nat): (j: nat)
    requires pos < |line|
    ensures pos <= j < |line|
    ensures forall k :: pos <= k < j ==> !Telling(line[k])
    ensures Telling(line[j]) || j == |line| - 1
    decreases |line| - pos
  {
    if Telling(line[pos]) || pos == |line| - 1 then pos else StopAt(line, pos + 1)
  }

  lemma {:induction false} OrdinaryTextIsSkipped(lines: seq<string>, l: nat, pos: nat, j: nat)
    requires l < |lines| && pos <= j <= |lines[l]|
    requires forall k :: pos <= k < j ==> !Telling(lines[l][k])
    ensures InArguments(lines, l, pos) == InArguments(lines, l, j)
    decreases j - pos
  {
    if pos == j {
    } else {
      OrdinaryTextIsSkipped(lines, l, pos + 1, j);
    }
  }

  /** The loop moves strictly forward in (line, column), also when `CloseExpression` moves it. */
  method InTemplateArgumentList(lines: seq<string>, linenum: nat, pos: nat) returns (r: bool)
    ensures r == InArguments(lines, linenum, pos)
  {
    var l: nat, p: nat := linenum, pos;
    while l < |lines|
      invariant InArguments(lines, l, p) == InArguments(lines, linenum, pos)
      decreases |lines| - l, if l < |lines| then |lines[l]| - p else 0
    {
      var line := lines[l];
      if p >= |line| {
        l, p := l + 1, 0;
        continue;
      }
      var j := StopAt(line, p);
      OrdinaryTextIsSkipped(lines, l, p, j);
      var token := line[j];
      p := j + 1;
      if token == '{' || token == '}' || token == ';' {
        return false;
      }
      if token == '>' || token == '=' || token == '[' || token == ']' || token == '.' {
        return true;
      }
      if token != '<' {
        p := p + 1;
        if p >= |line| {
          l, p := l + 1, 0;
        }
        continue;
      }
      var _, endLine, endPos := CloseExpression(lines, l, p - 1);
      if endPos < 0 {
        return false;
      }
      l, p := endLine, endPos;
    }
    return false;
  }

  /**
    From one place in the file the search comes to another: over characters that tell nothing, over line
    ends, and over argument lists that can be closed.
   */
  ghost predicate LeadsTo(lines: seq<string>, l: nat, p: nat, l2: nat, q: nat)
    decreases |lines| - l, if l < |lines| then |lines[l]| - p else 0
  {
    if l == l2 && p == q then true
    else if l >= |lines| then false
    else if p >= |lines[l]| then LeadsTo(lines, l + 1, 0, l2, q)
    else if lines[l][p] == '<' then
      ClosePosition(lines, l, p).Some? &&
      LeadsTo(lines, ClosePosition(lines, l, p).value.0, ClosePosition(lines, l, p).value.1, l2, q)
    else lines[l][p] !in "{};=[].>" && LeadsTo(lines, l, p + 1, l2, q)
  }

  /** The search comes to a character with which an argument list goes on or ends. */
  ghost predicate ComesTo(lines: seq<string>, l: nat, p: nat, l2: nat, q: nat) {
    l2 < |lines| && q < |lines[l2]| && lines[l2][q] in ">=[]." && LeadsTo(lines, l, p, l2, q)
  }

  /** Nothing is decided between the two places. */
  lemma Passes(lines: seq<string>, l: nat, p: nat, l1: nat, p1: nat)
    requires InArguments(lines, l, p) == InArguments(lines, l1, p1)
    requires forall l2: nat, q: nat :: ComesTo(lines, l, p, l2, q) <==> ComesTo(lines, l1, p1, l2, q)
    requires InArguments(lines, l1, p1) <==> exists l2: nat, q: nat :: ComesTo(lines, l1, p1, l2, q)
    ensures InArguments(lines, l, p) <==> exists l2: nat, q: nat :: ComesTo(lines, l, p, l2, q)
  {
    hide InArguments, ComesTo;
    if l2: nat, q: nat :| ComesTo(lines, l, p, l2, q) {
      assert ComesTo(lines, l1, p1, l2, q);
    }
    if InArguments(lines, l1, p1) {
      var l2: nat, q: nat :| ComesTo(lines, l1, p1, l2, q);
      assert ComesTo(lines, l, p, l2, q);
    }
  }

  /** The answer is yes exactly when such a character comes first. */
  lemma {:induction false} InArgumentsIff(lines: seq<string>, l: nat, p: nat)
    ensures InArguments(lines, l, p) <==> exists l2: nat, q: nat :: ComesTo(lines, l, p, l2, q)
    decreases |lines| - l, if l < |lines| then |lines[l]| - p else 0
  {
    hide ClosePosition;
    if l >= |lines| {
    } else if p >= |lines[l]| {
      InArgumentsIff(lines, l + 1, 0);
      Passes(lines, l, p, l + 1, 0);
    } else if lines[l][p] == '<' {
      if ClosePosition(lines, l, p).Some? {
        var (l3, e) := ClosePosition(lines, l, p).value;
        InArgumentsIff(lines, l3, e);
        Passes(lines, l, p, l3, e);
      }
    } else if lines[l][p] in ">=[]." {
      assert ComesTo(lines, l, p, l, p);
    } else if !EndsDeclaration(lines[l][p]) {
      InArgumentsIff(lines, l, p + 1);
      Passes(lines, l, p, l, p + 1);
    }
  }
}
