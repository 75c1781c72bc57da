/**
  `FindEndOfExpressionInLine` and `CloseExpression`: one stack that mixes real brackets with
  template angle brackets, fed by a per-line reading of each character.
 */
module ForwardScan {
  import opened Prelude
  import opened CppText
  import opened BracketGrammar

  /** What a character means to the forward scan, given the line to its left. */
  datatype Token =
    | Open(c: char)
    | Close(c: char)
    | Angle              // '<' that may open a template argument list
    | ShiftTail          // '<' preceded by '<'
    | AngleEnd           // '>' that may close a template argument list
    | Semicolon
    | Other

  datatype Step = Go(stack: string) | Hit | Dead

  datatype Run = Ended(past: nat) | Failed | Pending(stack: string)

  function Read(line: string, i: nat): Token
    requires i < |line|
  {
    var c := line[i];
    if IsOpen(c) then Open(c)
    else if c == '<' then
      if i > 0 && line[i - 1] == '<' then ShiftTail
      else if i > 0 && EndsWithOperator(line[..i]) then Other
      else Angle
    else if IsClose(c) then Close(c)
    else if c == '>' then
      if i > 0 && (line[i - 1] == '-' || EndsWithOperator(line[..i - 1])) then Other else AngleEnd
    else if c == ';' then Semicolon
    else Other
  }

  function ReadLine(line: string): seq<Token> {
    seq(|line|, i requires 0 <= i < |line| => Read(line, i))
  }

  /** The stack without the angle brackets on top of it. */
  function DropAngles(st: string): (r: string)
    ensures r == [] || Top(r) != '<'
    ensures |r| <= |st|
  {
    if st != [] && Top(st) == '<' then DropAngles(Pop(st)) else st
  }

  function Advance(st: string, tok: Token): Step {
    match tok
    case Open(c) => Go(Push(st, c))
    case Angle => Go(Push(st, '<'))
    case ShiftTail =>
      if st != [] && Top(st) == '<' then (if |st| == 1 then Dead else Go(Pop(st))) else Go(st)
    case Close(c) =>
      var s := DropAngles(st);
      if s == [] || !IsOpen(Top(s)) || Closer(Top(s)) != c then Dead
      else if |s| == 1 then Hit
      else Go(Pop(s))
    case AngleEnd =>
      if st != [] && Top(st) == '<' then (if |st| == 1 then Hit else Go(Pop(st))) else Go(st)
    case Semicolon =>
      var s := DropAngles(st);
      if s == [] then Dead else Go(s)
    case Other => Go(st)
  }

  /** Reads tokens from `i`; `Ended(e)` says the token before `e` emptied the stack. */
  function Scan(toks: seq<Token>, i: nat, st: string): (r: Run)
    requires i <= |toks|
    ensures r.Ended? ==> i < r.past <= |toks|
    decreases |toks| - i
  {
    if i == |toks| then Pending(st)
    else match Advance(st, toks[i])
      case Go(s) => Scan(toks, i + 1, s)
      case Hit => Ended(i + 1)
      case Dead => Failed
  }

  /**
    The scanner of one line. `end` is the index just past the closing character or -1; `rest` is the
    stack carried to the next line, absent when the expression ended or can never end.
   */
  method FindEndOfExpressionInLine(line: string, startpos: nat, stack: string)
    returns (end: int, rest: Option<string>)
    requires startpos <= |line|
    ensures match Scan(ReadLine(line), startpos, stack)
      case Ended(e) => end == e && rest == None
      case Failed => end == -1 && rest == None
      case Pending(s) => end == -1 && rest == Some(s)
  {
    var st := stack;
    var i := startpos;
    ghost var toks := ReadLine(line);
    while i < |line|
      invariant startpos <= i <= |line|
      invariant Scan(toks, i, st) == Scan(toks, startpos, stack)
    {
      var c := line[i];
      ghost var before := st;
      assert toks[i] == Read(line, i);
      if IsOpen(c) {
        st := Push(st, c);
      } else if c == '<' {
        if i > 0 && line[i - 1] == '<' {
          if st != [] && Top(st) == '<' {
            st := Pop(st);
            if st == [] {
              return -1, None;
            }
          }
        } else if i > 0 && EndsWithOperator(line[..i]) {
        } else {
          st := Push(st, '<');
        }
      } else if IsClose(c) {
        st := PopAngles(st);
        if st == [] {
          return -1, None;
        }
        if (Top(st) == '(' && c == ')') || (Top(st) == '[' && c == ']') || (Top(st) == '{' && c == '}') {
          st := Pop(st);
          if st == [] {
            return i + 1, None;
          }
        } else {
          return -1, None;
        }
      } else if c == '>' {
        if !(i > 0 && (line[i - 1] == '-' || EndsWithOperator(line[..i - 1]))) {
          if st != [] && Top(st) == '<' {
            st := Pop(st);
            if st == [] {
              return i + 1, None;
            }
          }
        }
      } else if c == ';' {
        st := PopAngles(st);
        if st == [] {
          return -1, None;
        }
      }
      assert Advance(before, toks[i]) == Go(st);
      i := i + 1;
    }
    return -1, Some(st);
  }

  /** The loop that discards pending angle brackets. */
  method PopAngles(st: string) returns (r: string)
    ensures r == DropAngles(st)
  {
    r := st;
    while r != [] && Top(r) == '<'
      invariant DropAngles(r) == DropAngles(st)
    {
      r := Pop(r);
    }
  }

  /** Lines `l, l+1, ...` scanned from column `i` of line `l`, stopping when a line leaves no stack. */
  function CloseFrom(lines: seq<string>, l: nat, i: nat, st: string): (r: Option<(nat, nat)>)
    requires l < |lines| && i <= |lines[l]|
    ensures r.Some? ==> l <= r.value.0 < |lines| && 0 < r.value.1 <= |lines[r.value.0]|
    ensures r.Some? && r.value.0 == l ==> i < r.value.1
    decreases |lines| - l
  {
    match Scan(ReadLine(lines[l]), i, st)
    case Ended(e) => Some((l, e))
    case Failed => None
    case Pending(s) => if s != [] && l + 1 < |lines| then CloseFrom(lines, l + 1, 0, s) else None
  }

  /** The characters `CloseExpression` agrees to start from. */
  predicate Starts(line: string, pos: nat)
    requires pos < |line|
  {
    (IsOpen(line[pos]) || line[pos] == '<') &&
    !(line[pos] == '<' && pos + 1 < |line| && (line[pos + 1] == '<' || line[pos + 1] == '='))
  }

  function ClosePosition(lines: seq<string>, l: nat, p: nat): (r: Option<(nat, nat)>)
    requires l < |lines| && p < |lines[l]|
    ensures r.Some? ==> l <= r.value.0 < |lines| && 0 < r.value.1 <= |lines[r.value.0]|
    ensures r.Some? && r.value.0 == l ==> p < r.value.1
  {
    if Starts(lines[l], p) then CloseFrom(lines, l, p, []) else None
  }

  /** `line` is the last line looked at; failure is reported as position -1 past the last line. */
  method CloseExpression(lines: seq<string>, linenum: nat, pos: nat)
    returns (line: string, endLine: nat, endPos: int)
    requires linenum < |lines| && pos < |lines[linenum]|
    ensures match ClosePosition(lines, linenum, pos)
      case Some((l, e)) => endLine == l && endPos == e && line == lines[l]
      case None => endLine == |lines| && endPos == -1
  {
    line := lines[linenum];
    if !Starts(line, pos) {
      return line, |lines|, -1;
    }
    var l := linenum;
    var end, rest := FindEndOfExpressionInLine(line, pos, []);
    if end > -1 {
      return line, l, end;
    }
    while rest.Some? && rest.value != [] && l < |lines| - 1
      invariant linenum <= l < |lines| && line == lines[l]
      invariant CloseFrom(lines, linenum, pos, []) ==
                if rest.Some? && rest.value != [] && l + 1 < |lines|
                then CloseFrom(lines, l + 1, 0, rest.value) else None
      decreases |lines| - l
    {
      l := l + 1;
      line := lines[l];
      end, rest := FindEndOfExpressionInLine(line, 0, rest.value);
      if end > -1 {
        return line, l, end;
      }
    }
    return line, |lines|, -1;
  }
}
