/**
  `FindStartOfExpressionInLine` and `ReverseCloseExpression`: the same search from the closing side.
  The backward scan skips the character before an ignored '>' or '<'.
 */
module BackwardScan {
  import opened Prelude
  import opened CppText
  import opened BracketGrammar

  datatype BackRun = Found(at: nat) | Lost | Unfinished(stack: string)

  function Opener(c: char): char
    requires IsClose(c)
  {
    MirrorChar(c)
  }

  function DropAngles(st: string): (r: string)
    ensures r == [] || Top(r) != '>'
    ensures |r| <= |st|
  {
    if st != [] && Top(st) == '>' then DropAngles(Pop(st)) else st
  }

  /** '>' that is part of "->", " >= " or an operator name: it and the character before it are skipped. */
  predicate SkippedAngle(line: string, i: nat)
    requires i < |line|
  {
    i > 0 && (line[i - 1] == '-'
              || (IsSpace(line[i - 1]) && i + 2 < |line| && line[i + 1] == '=' && IsSpace(line[i + 2]))
              || EndsWithOperator(line[..i]))
  }

  /** Reads `line` leftwards from `i`, where -1 is before the first character. */
  function ScanBack(line: string, i: int, st: string): (r: BackRun)
    requires -1 <= i < |line|
    ensures r.Found? ==> r.at <= i
    decreases i
  {
    if i < 0 then Unfinished(st)
    else
      var c := line[i];
      if IsClose(c) then ScanBack(line, i - 1, Push(st, c))
      else if c == '>' then
        if SkippedAngle(line, i) then ScanBack(line, i - 2, st) else ScanBack(line, i - 1, Push(st, '>'))
      else if c == '<' then
        if i > 0 && line[i - 1] == '<' then ScanBack(line, i - 2, st)
        else if st != [] && Top(st) == '>' then
          if |st| == 1 then Found(i) else ScanBack(line, i - 1, Pop(st))
        else ScanBack(line, i - 1, st)
      else if IsOpen(c) then
        var s := DropAngles(st);
        if s == [] || !IsClose(Top(s)) || Opener(Top(s)) != c then Lost
        else if |s| == 1 then Found(i)
        else ScanBack(line, i - 1, Pop(s))
      else if c == ';' then
        var s := DropAngles(st);
        if s == [] then Lost else ScanBack(line, i - 1, s)
      else ScanBack(line, i - 1, st)
  }

  method PopAngles(st: string) returns (r: string)
    ensures r == DropAngles(st)
  {
    r := st;
    while r != [] && Top(r) == '>'
      invariant DropAngles(r) == DropAngles(st)
    {
      r := Pop(r);
    }
  }

  method FindStartOfExpressionInLine(line: string, endpos: int, stack: string)
    returns (start: int, rest: Option<string>)
    requires -1 <= endpos < |line|
    ensures match ScanBack(line, endpos, stack)
      case Found(p) => start == p && rest == None
      case Lost => start == -1 && rest == None
      case Unfinished(s) => start == -1 && rest == Some(s)
  {
    var st := stack;
    var i := endpos;
    while i >= 0
      invariant -1 <= i <= endpos
      invariant ScanBack(line, i, st) == ScanBack(line, endpos, stack)
      decreases i
    {
      var c := line[i];
      if IsClose(c) {
        st := Push(st, c);
      } else if c == '>' {
        if SkippedAngle(line, i) {
          i := i - 1;
        } else {
          st := Push(st, '>');
        }
      } else if c == '<' {
        if i > 0 && line[i - 1] == '<' {
          i := i - 1;
        } else if st != [] && Top(st) == '>' {
          st := Pop(st);
          if st == [] {
            return i, None;
          }
        }
      } else if IsOpen(c) {
        st := PopAngles(st);
        if st == [] {
          return -1, None;
        }
        if (c == '(' && Top(st) == ')') || (c == '[' && Top(st) == ']') || (c == '{' && Top(st) == '}') {
          st := Pop(st);
          if st == [] {
            return i, None;
          }
        } else {
          return -1, None;
        }
      } else if c == ';' {
        st := PopAngles(st);
        if st == [] {
          return -1, None;
        }
      }
      i := i - 1;
    }
    return -1, Some(st);
  }

  function OpenFrom(lines: seq<string>, l: nat, i: int, st: string): (r: Option<(nat, nat)>)
    requires l < |lines| && -1 <= i < |lines[l]|
    ensures r.Some? ==> r.value.0 <= l && r.value.1 < |lines[r.value.0]|
    decreases l
  {
    match ScanBack(lines[l], i, st)
    case Found(p) => Some((l, p))
    case Lost => None
    case Unfinished(s) => if s != [] && l > 0 then OpenFrom(lines, l - 1, |lines[l - 1]| - 1, s) else None
  }

  function OpenPosition(lines: seq<string>, l: nat, p: nat): (r: Option<(nat, nat)>)
    requires l < |lines| && p < |lines[l]|
    ensures r.Some? ==> r.value.0 <= l && r.value.1 < |lines[r.value.0]|
  {
    if IsClose(lines[l][p]) || lines[l][p] == '>' then OpenFrom(lines, l, p, []) else None
  }

  method ReverseCloseExpression(lines: seq<string>, linenum: nat, pos: nat)
    returns (line: string, startLine: nat, startPos: int)
    requires linenum < |lines| && pos < |lines[linenum]|
    ensures match OpenPosition(lines, linenum, pos)
      case Some((l, p)) => startLine == l && startPos == p && line == lines[l]
      case None => startLine == 0 && startPos == -1
  {
    line := lines[linenum];
    if !(IsClose(line[pos]) || line[pos] == '>') {
      return line, 0, -1;
    }
    var l := linenum;
    var start, rest := FindStartOfExpressionInLine(line, pos, []);
    if start > -1 {
      return line, l, start;
    }
    while rest.Some? && rest.value != [] && l > 0
      invariant l <= linenum && line == lines[l]
      invariant OpenFrom(lines, linenum, pos, []) ==
                if rest.Some? && rest.value != [] && l > 0
                then OpenFrom(lines, l - 1, |lines[l - 1]| - 1, rest.value) else None
      decreases l
    {
      l := l - 1;
      line := lines[l];
      start, rest := FindStartOfExpressionInLine(line, |line| - 1, rest.value);
      if start > -1 {
        return line, l, start;
      }
    }
    return line, 0, -1;
  }
}
