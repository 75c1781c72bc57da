/** `RemoveMultiLineComments`: lines of a C comment that spans lines are blanked in place. */
module CommentCleanser {
  import opened Prelude
  import opened CppText

  function Strip(s: string): string {
    if s == [] then s
    else if IsSpace(s[0]) then Strip(s[1..])
    else if IsSpace(s[|s| - 1]) then Strip(s[..|s| - 1])
    else s
  }

  /** Starts with an opening marker that is not closed again on the same line. */
  predicate Opens(line: string) {
    var s := Strip(line);
    |s| >= 2 && s[0] == '/' && s[1] == '*' && !exists k :: 2 <= k < |s| - 1 && s[k] == '*' && s[k + 1] == '/'
  }

  predicate Closes(line: string) {
    var s := Strip(line);
    |s| >= 2 && s[|s| - 2] == '*' && s[|s| - 1] == '/'
  }

  const BLANK := "/**/"

  lemma BlankOpensNothing()
    ensures !Opens(BLANK)
  {
    assert Strip(BLANK) == BLANK;
    assert BLANK[2] == '*' && BLANK[3] == '/';
  }

  // ----- Which lines belong to a comment, one line at a time -----

  /** Whether a comment is open when line `j` begins. */
  function Inside(lines: seq<string>, j: nat): bool
    requires j <= |lines|
  {
    j > 0 && (Inside(lines, j - 1) || Opens(lines[j - 1])) && !Closes(lines[j - 1])
  }

  predicate Covered(lines: seq<string>, j: nat)
    requires j < |lines|
  {
    Inside(lines, j) || Opens(lines[j])
  }

  predicate ClosedLater(lines: seq<string>, j: nat) {
    exists e :: j <= e < |lines| && Closes(lines[e])
  }

  /** What the cleansed file holds: a blank for every line of a comment that is closed in the file. */
  function Cleansed(lines: seq<string>): (r: seq<string>)
    ensures |r| == |lines|
  {
    seq(|lines|, j requires 0 <= j < |lines| =>
      if Covered(lines, j) && ClosedLater(lines, j) then BLANK else lines[j])
  }

  /** The line of an opening marker that is never closed. */
  ghost predicate Unclosed(lines: seq<string>, b: nat) {
    b < |lines| && !Inside(lines, b) && Opens(lines[b]) && !ClosedLater(lines, b)
  }

  // ----- The code -----

  method FindNextMultiLineCommentStart(lines: array<string>, lineix: nat) returns (b: nat)
    requires lineix <= lines.Length
    ensures lineix <= b <= lines.Length && (b < lines.Length ==> Opens(lines[b]))
    ensures forall j :: lineix <= j < b ==> !Opens(lines[j])
  {
    b := lineix;
    while b < lines.Length
      invariant lineix <= b <= lines.Length
      invariant forall j :: lineix <= j < b ==> !Opens(lines[j])
    {
      if Opens(lines[b]) {
        return;
      }
      b := b + 1;
    }
  }

  method FindNextMultiLineCommentEnd(lines: array<string>, lineix: nat) returns (e: nat)
    requires lineix <= lines.Length
    ensures lineix <= e <= lines.Length && (e < lines.Length ==> Closes(lines[e]))
    ensures forall j :: lineix <= j < e ==> !Closes(lines[j])
  {
    e := lineix;
    while e < lines.Length
      invariant lineix <= e <= lines.Length
      invariant forall j :: lineix <= j < e ==> !Closes(lines[j])
    {
      if Closes(lines[e]) {
        return;
      }
      e := e + 1;
    }
  }

  method RemoveMultiLineCommentsFromRange(lines: array<string>, begin: nat, end: nat)
    requires begin <= end <= lines.Length
    modifies lines
    ensures forall j :: 0 <= j < lines.Length ==>
              lines[j] == if begin <= j < end then BLANK else old(lines[j])
  {
    for i := begin to end
      invariant forall j :: 0 <= j < lines.Length ==>
                  lines[j] == if begin <= j < i then BLANK else old(lines[j])
    {
      lines[i] := BLANK;
    }
  }

  lemma {:induction false} OutsideUntil(lines: seq<string>, i: nat, b: nat)
    requires i <= b <= |lines| && !Inside(lines, i)
    requires forall j :: i <= j < b ==> !Opens(lines[j])
    ensures forall j :: i <= j <= b ==> !Inside(lines, j)
    decreases b - i
  {
    if i == b {
    } else {
      OutsideUntil(lines, i, b - 1);
      assert !Inside(lines, b - 1) && !Opens(lines[b - 1]);
    }
  }

  lemma {:induction false} InsideUntil(lines: seq<string>, b: nat, e: nat)
    requires b < e <= |lines| && Covered(lines, b)
    requires forall j :: b <= j < e ==> !Closes(lines[j])
    ensures forall j :: b < j <= e ==> Inside(lines, j)
    decreases e - b
  {
    if b + 1 == e {
    } else {
      InsideUntil(lines, b, e - 1);
    }
    assert Inside(lines, e);
  }

  /** The whole loop: the file becomes its cleansed form, and an unclosed comment is reported. */
  method RemoveMultiLineComments(lines: array<string>) returns (reported: Option<nat>)
    modifies lines
    ensures lines[..] == Cleansed(old(lines[..]))
    ensures match reported
      case Some(b) => Unclosed(old(lines[..]), b)
      case None => forall b: nat :: !Unclosed(old(lines[..]), b)
  {
    hide Opens, Closes;
    ghost var was := lines[..];
    var lineix := 0;
    while lineix < lines.Length
      invariant lineix <= lines.Length && !Inside(was, lineix)
      invariant forall j :: 0 <= j < lineix ==> lines[j] == Cleansed(was)[j]
      invariant forall j :: lineix <= j < lines.Length ==> lines[j] == was[j]
      invariant forall b :: 0 <= b < lineix ==> !Unclosed(was, b)
    {
      var begin := FindNextMultiLineCommentStart(lines, lineix);
      OutsideUntil(was, lineix, begin);
      if begin >= lines.Length {
        return None;
      }
      var end := FindNextMultiLineCommentEnd(lines, begin);
      if end >= lines.Length {
        return Some(begin);
      }
      if begin < end {
        InsideUntil(was, begin, end);
      }
      assert forall j :: begin <= j <= end ==> Covered(was, j) && ClosedLater(was, j);
      RemoveMultiLineCommentsFromRange(lines, begin, end + 1);
      lineix := end + 1;
    }
    return None;
  }

  // ----- Consequences -----

  /** An opening marker left in the file belongs to a comment that is reported as unclosed. */
  lemma OpensOnlyUnclosed(lines: seq<string>, j: nat)
    requires j < |lines| && Opens(Cleansed(lines)[j])
    ensures exists b: nat :: b <= j && Unclosed(lines, b)
  {
    BlankOpensNothing();
    assert Covered(lines, j) && !ClosedLater(lines, j);
    var b := StartOf(lines, j);
    assert Unclosed(lines, b);
  }

  /** The line where the comment that covers line `j` was opened. */
  lemma {:induction false} StartOf(lines: seq<string>, j: nat) returns (b: nat)
    requires j < |lines| && Covered(lines, j) && !ClosedLater(lines, j)
    ensures b <= j && Unclosed(lines, b)
  {
    if Inside(lines, j) {
      b := StartOf(lines, j - 1);
    } else {
      b := j;
    }
  }

  lemma {:induction false} InsideCleansed(lines: seq<string>, j: nat)
    requires j <= |lines|
    ensures Inside(Cleansed(lines), j) ==> j > 0 && Covered(lines, j - 1) && !ClosedLater(lines, j - 1)
  {
    BlankOpensNothing();
    var c := Cleansed(lines);
    if j > 0 && Inside(c, j) {
      InsideCleansed(lines, j - 1);
      if Opens(c[j - 1]) {
        assert c[j - 1] != BLANK;
      } else {
        assert Inside(c, j - 1);
        assert !ClosedLater(lines, j - 2);
        assert Inside(lines, j - 1);
      }
    }
  }

  lemma OpenToTheEnd(lines: seq<string>, j: nat)
    requires !ClosedLater(lines, j)
    ensures !ClosedLater(Cleansed(lines), j)
  {
    var c := Cleansed(lines);
    forall e | j <= e < |lines|
      ensures !Closes(c[e])
    {
      assert !ClosedLater(lines, e);
      assert c[e] == lines[e];
    }
  }

  /** Cleansing a cleansed file changes nothing. */
  lemma CleansedTwice(lines: seq<string>)
    ensures Cleansed(Cleansed(lines)) == Cleansed(lines)
  {
    var c := Cleansed(lines);
    forall j | 0 <= j < |lines| && Covered(c, j)
      ensures !ClosedLater(c, j)
    {
      BlankOpensNothing();
      InsideCleansed(lines, j);
      assert !ClosedLater(lines, j);
      OpenToTheEnd(lines, j);
    }
  }

  lemma {:induction false} StaysInside(lines: seq<string>, j: nat)
    requires j <= |lines| && Inside(lines, j) && !ClosedLater(lines, j)
    ensures Inside(Cleansed(lines), j)
  {
    assert !ClosedLater(lines, j - 1) && Cleansed(lines)[j - 1] == lines[j - 1];
    if Inside(lines, j - 1) {
      StaysInside(lines, j - 1);
    }
  }

  /** A second run reports what the first one reported. */
  lemma SameReport(lines: seq<string>, b: nat)
    ensures Unclosed(Cleansed(lines), b) <==> Unclosed(lines, b)
  {
    hide Closes;
    BlankOpensNothing();
    var c := Cleansed(lines);
    if Unclosed(lines, b) {
      OpenToTheEnd(lines, b);
      InsideCleansed(lines, b);
      assert c[b] == lines[b];
    }
    if Unclosed(c, b) {
      assert c[b] == lines[b] && !ClosedLater(lines, b);
      if Inside(lines, b) {
        StaysInside(lines, b);
      }
    }
  }

  // ----- Comments in the text -----

  predicate Blanks(s: string, i: nat, j: nat) {
    i <= j <= |s| && forall k :: i <= k < j ==> IsSpace(s[k])
  }

  predicate MarkerAt(s: string, k: nat, c: char, d: char) {
    k + 1 < |s| && s[k] == c && s[k + 1] == d
  }

  /** After leading space the line begins with an opening marker, and no closing marker follows it. */
  ghost predicate OpensText(line: string) {
    exists i: nat :: Blanks(line, 0, i) && MarkerAt(line, i, '/', '*') &&
                     forall k: nat :: i + 2 <= k ==> !MarkerAt(line, k, '*', '/')
  }

  /** The line ends with a closing marker, but for space. */
  ghost predicate ClosesText(line: string) {
    exists k: nat :: MarkerAt(line, k, '*', '/') && Blanks(line, k + 2, |line|)
  }

  /** The line without the space around it is `s[i..j]`. */
  predicate Trim(s: string, i: nat, j: nat) {
    i <= j <= |s| && Blanks(s, 0, i) && Blanks(s, j, |s|) && (i < j ==> !IsSpace(s[i]) && !IsSpace(s[j - 1]))
  }

  lemma {:induction false} StripTrims(s: string) returns (i: nat, j: nat)
    ensures Trim(s, i, j) && Strip(s) == s[i..j]
    decreases |s|
  {
    if s == [] {
      i, j := 0, 0;
    } else if IsSpace(s[0]) {
      var a, b := StripTrims(s[1..]);
      i, j := a + 1, b + 1;
      assert forall k :: 0 <= k < |s| - 1 ==> s[1..][k] == s[k + 1];
      assert forall k :: 0 < k < |s| ==> s[k] == s[1..][k - 1];
    } else if IsSpace(s[|s| - 1]) {
      i, j := StripTrims(s[..|s| - 1]);
    } else {
      i, j := 0, |s|;
    }
  }

  lemma OpensIff(line: string)
    ensures Opens(line) <==> OpensText(line)
  {
    var i, j := StripTrims(line);
    var s := Strip(line);
    hide Strip;
    assert forall k :: 0 <= k < |s| ==> s[k] == line[i + k];
    forall k: nat | i + 2 <= k && MarkerAt(line, k, '*', '/')
      ensures k + 1 < j && s[k - i] == '*' && s[k - i + 1] == '/'
    {
    }
    if b: nat :| Blanks(line, 0, b) && MarkerAt(line, b, '/', '*') && forall k: nat :: b + 2 <= k ==> !MarkerAt(line, k, '*', '/') {
      assert b == i && i < j;
      assert i + 1 < j;
      forall k | 2 <= k < |s| - 1 ensures !(s[k] == '*' && s[k + 1] == '/') {
        assert !MarkerAt(line, i + k, '*', '/');
      }
    }
  }

  lemma ClosesIff(line: string)
    ensures Closes(line) <==> ClosesText(line)
  {
    var i, j := StripTrims(line);
    var s := Strip(line);
    hide Strip;
    assert forall k :: 0 <= k < |s| ==> s[k] == line[i + k];
    if Closes(line) {
      assert MarkerAt(line, j - 2, '*', '/') && Blanks(line, j - 2 + 2, |line|);
    }
    if k: nat :| MarkerAt(line, k, '*', '/') && Blanks(line, k + 2, |line|) {
      assert i <= k && k + 2 == j;
    }
  }

  /** A comment: from a line that opens one to the first line from there on that closes it. */
  ghost predicate Comment(lines: seq<string>, b: nat, e: nat) {
    b <= e < |lines| && OpensText(lines[b]) && ClosesText(lines[e]) && forall k :: b <= k < e ==> !ClosesText(lines[k])
  }

  lemma {:induction false} OpenUntil(lines: seq<string>, b: nat, j: nat)
    requires b < j <= |lines| && Opens(lines[b]) && forall k :: b <= k < j ==> !Closes(lines[k])
    ensures Inside(lines, j)
    decreases j
  {
    if b + 1 == j {
    } else {
      OpenUntil(lines, b, j - 1);
    }
  }

  /** Where the comment that covers line `j` was opened. */
  lemma {:induction false} OpenedAt(lines: seq<string>, j: nat) returns (b: nat)
    requires j < |lines| && Covered(lines, j)
    ensures b <= j && Opens(lines[b]) && forall k :: b <= k < j ==> !Closes(lines[k])
  {
    if Inside(lines, j) {
      b := OpenedAt(lines, j - 1);
    } else {
      b := j;
    }
  }

  lemma {:induction false} FirstClosing(lines: seq<string>, j: nat) returns (e: nat)
    requires ClosedLater(lines, j)
    ensures j <= e < |lines| && Closes(lines[e]) && forall k :: j <= k < e ==> !Closes(lines[k])
    decreases |lines| - j
  {
    if Closes(lines[j]) {
      e := j;
    } else {
      e := FirstClosing(lines, j + 1);
    }
  }

  lemma TextsAgree(lines: seq<string>)
    ensures forall k :: 0 <= k < |lines| ==>
              (Opens(lines[k]) <==> OpensText(lines[k])) && (Closes(lines[k]) <==> ClosesText(lines[k]))
  {
    hide Opens, OpensText, Closes, ClosesText;
    forall k | 0 <= k < |lines|
      ensures (Opens(lines[k]) <==> OpensText(lines[k])) && (Closes(lines[k]) <==> ClosesText(lines[k]))
    {
      OpensIff(lines[k]);
      ClosesIff(lines[k]);
    }
  }

  /** Exactly the lines of comments become blank, from the opening to the closing line; the others stay. */
  lemma CleansedIs(lines: seq<string>, j: nat)
    requires j < |lines|
    ensures Cleansed(lines)[j] ==
            if exists b: nat, e: nat :: Comment(lines, b, e) && b <= j <= e then "/**/" else lines[j]
  {
    hide Opens, OpensText, Closes, ClosesText;
    TextsAgree(lines);
    if Covered(lines, j) && ClosedLater(lines, j) {
      var b := OpenedAt(lines, j);
      var e := FirstClosing(lines, j);
      assert Comment(lines, b, e);
    }
    if b: nat, e: nat :| Comment(lines, b, e) && b <= j <= e {
      if b < j {
        OpenUntil(lines, b, j);
      }
      assert Closes(lines[e]);
    }
  }

  /** The line reported is the first that opens a comment which is not closed before any later opening. */
  lemma ReportIs(lines: seq<string>, b: nat)
    ensures Unclosed(lines, b) <==>
            b < |lines| && OpensText(lines[b]) && (forall e :: b <= e < |lines| ==> !ClosesText(lines[e])) &&
            forall a :: 0 <= a < b && OpensText(lines[a]) ==> exists e :: a <= e < b && ClosesText(lines[e])
  {
    hide Opens, OpensText, Closes, ClosesText;
    TextsAgree(lines);
    if b < |lines| {
      if Inside(lines, b) {
        var a := OpenedAt(lines, b - 1);
        assert Opens(lines[a]) && forall k :: a <= k < b ==> !Closes(lines[k]);
      } else {
        forall a | 0 <= a < b && Opens(lines[a]) ensures exists e :: a <= e < b && Closes(lines[e]) {
          if forall e :: a <= e < b ==> !Closes(lines[e]) {
            OpenUntil(lines, a, b);
          }
        }
      }
    }
  }
}
