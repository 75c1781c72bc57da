/**
  Which angle brackets open, close and cancel each other: read off the text of a line, and paired by a
  grammar over the whole file, without any scanner.
 */
module AngleGrammar {
  import opened CppText
  import opened BracketGrammar

  /** What an angle bracket may do; every other character does nothing. */
  datatype Mark = Opens | Closes | Cancels | NoMark

  /** '<' opens, unless it is the tail of "<<", which takes the head back, or names an operator. */
  ghost function LeftMark(line: string, i: nat): Mark
    requires i < |line| && line[i] == '<'
  {
    if i > 0 && line[i - 1] == '<' then Cancels else if OperatorBefore(line, i) then NoMark else Opens
  }

  /** '>' closes, unless it belongs to "->" or to the name of an operator. */
  ghost function RightMark(line: string, i: nat): Mark
    requires i < |line| && line[i] == '>'
  {
    if i > 0 && (line[i - 1] == '-' || OperatorBefore(line, i - 1)) then NoMark else Closes
  }

  ghost function MarkAt(line: string, i: nat): Mark
    requires i < |line|
  {
    if line[i] == '<' then LeftMark(line, i) else if line[i] == '>' then RightMark(line, i) else NoMark
  }

  ghost function LineMarks(line: string): seq<Mark> {
    seq(|line|, i requires 0 <= i < |line| => MarkAt(line, i))
  }

  /** The marks of all lines laid end to end. */
  ghost function Marks(lines: seq<string>): seq<Mark> {
    if lines == [] then [] else LineMarks(lines[0]) + Marks(lines[1..])
  }

  /**
    The angle opened just before `i` ends at `m`, by a closing or a cancelling mark. In between there are
    ordinary characters, brackets with balanced text, and angles with their own ends; no ';'.
   */
  ghost predicate Paired(t: string, marks: seq<Mark>, i: nat, m: nat)
    requires |marks| == |t| && i <= m < |t|
    decreases m - i
  {
    if i == m then marks[m].Closes? || marks[m].Cancels?
    else if IsOpen(t[i]) then
      exists k :: i < k < m && t[k] == Closer(t[i]) && Balanced(t, i + 1, k) && Paired(t, marks, k + 1, m)
    else if marks[i].Opens? then
      exists k :: i < k < m && !marks[k].NoMark? && Paired(t, marks, i + 1, k) && Paired(t, marks, k + 1, m)
    else !IsClose(t[i]) && t[i] != ';' && marks[i].NoMark? && Paired(t, marks, i + 1, m)
  }

  // ----- Read from the right -----

  /** '>' that belongs to "->", to " >= " or to the name of an operator. */
  ghost predicate NoAngle(line: string, i: nat)
    requires i < |line|
  {
    i > 0 && (line[i - 1] == '-' || OperatorBefore(line, i) ||
              (IsSpace(line[i - 1]) && i + 2 < |line| && line[i + 1] == '=' && IsSpace(line[i + 2])))
  }

  /** The longest run of '<' from `i` on has length `n`. */
  predicate LeftRun(line: string, i: nat, n: nat) {
    i + n <= |line| && (forall j :: i <= j < i + n ==> line[j] == '<') && (i + n == |line| || line[i + n] != '<')
  }

  /** A '<' counts when it is the first of an odd number; the others of its run go in pairs. */
  ghost predicate OddLeft(line: string, i: nat)
    requires i < |line|
  {
    line[i] == '<' && (i == 0 || line[i - 1] != '<') && exists n :: LeftRun(line, i, n) && n % 2 == 1
  }

  /** Read from the right a '>' opens and a '<' closes, and nothing cancels. */
  ghost function BackMarkAt(line: string, i: nat): Mark
    requires i < |line|
  {
    if line[i] == '>' && !NoAngle(line, i) then Opens else if OddLeft(line, i) then Closes else NoMark
  }

  ghost function BackMarks(lines: seq<string>): (m: seq<Mark>)
    ensures |m| == |Flat(lines)|
  {
    if lines == [] then []
    else seq(|lines[0]|, i requires 0 <= i < |lines[0]| => BackMarkAt(lines[0], i)) + BackMarks(lines[1..])
  }

  function TurnChar(c: char): char {
    if c == '<' then '>' else if c == '>' then '<' else MirrorChar(c)
  }

  /** The file read from the right, with every bracket turned round. */
  function TurnedText(lines: seq<string>): (t: string)
    ensures |t| == |Flat(lines)|
  {
    seq(|Flat(lines)|, i requires 0 <= i < |Flat(lines)| => TurnChar(Flat(lines)[|Flat(lines)| - 1 - i]))
  }

  ghost function TurnedMarks(lines: seq<string>): (m: seq<Mark>)
    ensures |m| == |Flat(lines)|
  {
    seq(|Flat(lines)|, i requires 0 <= i < |Flat(lines)| => BackMarks(lines)[|Flat(lines)| - 1 - i])
  }
}
