/** `CleanseRawStrings`: C++11 raw strings become `""`, also when they span lines. */
module RawStrings {
  import opened Prelude
  import opened CppText

  /** Length of the encoding prefix and the R at `k`: R, u8R, uR, UR or LR; 0 when there is none. */
  function PrefixLength(line: string, k: nat): (n: nat)
    requires k <= |line|
    ensures k + n <= |line|
  {
    if k < |line| && line[k] == 'R' then 1
    else if k + 1 < |line| && (line[k] == 'u' || line[k] == 'U' || line[k] == 'L') && line[k + 1] == 'R' then 2
    else if k + 2 < |line| && line[k] == 'u' && line[k + 1] == '8' && line[k + 2] == 'R' then 3
    else 0
  }

  predicate DelimiterChar(c: char) {
    !IsSpace(c) && c != '\\' && c != '(' && c != ')'
  }

  /** The first position from `i` on that cannot belong to a delimiter. */
  function DelimiterEnd(line: string, i: nat): (m: nat)
    requires i <= |line|
    ensures i <= m <= |line|
    decreases |line| - i
  {
    if i < |line| && DelimiterChar(line[i]) then DelimiterEnd(line, i + 1) else i
  }

  /** A raw string literal that begins in the line: its first character and its opening parenthesis. */
  datatype Raw = Raw(start: nat, delimiter: nat, paren: nat)

  /** The pattern `\b(?:R|u8R|uR|UR|LR)"([^\s\\()]*)\(` tried at `k`. */
  function RawAt(line: string, k: nat): (r: Option<Raw>)
    requires k <= |line|
    ensures r.Some? ==> r.value.start == k < r.value.delimiter <= r.value.paren < |line|
    ensures r.Some? ==> line[r.value.paren] == '('
  {
    var n := PrefixLength(line, k);
    if n == 0 || (k > 0 && IsWordChar(line[k - 1])) || k + n >= |line| || line[k + n] != '"' then None
    else
      var m := DelimiterEnd(line, k + n + 1);
      if m < |line| && line[m] == '(' then Some(Raw(k, k + n + 1, m)) else None
  }

  /** The leftmost match from `k` on. */
  function FirstRaw(line: string, k: nat): (r: Option<Raw>)
    requires k <= |line|
    ensures r.Some? ==> k <= r.value.start < |line| && RawAt(line, r.value.start) == r
    ensures forall j :: k <= j < (if r.Some? then r.value.start else |line|) ==> RawAt(line, j) == None
    decreases |line| - k
  {
    if k == |line| then None
    else if RawAt(line, k).Some? then RawAt(line, k)
    else FirstRaw(line, k + 1)
  }

  /** `s.find(pat)`. */
  function Find(s: string, pat: string, i: nat): (r: Option<nat>)
    requires i <= |s|
    ensures r.Some? ==> i <= r.value && r.value + |pat| <= |s| && s[r.value..r.value + |pat|] == pat
    decreases |s| - i
  {
    if i + |pat| <= |s| && s[i..i + |pat|] == pat then Some(i)
    else if i < |s| then Find(s, pat, i + 1)
    else None
  }

  function Terminator(line: string, r: Raw): string
    requires r.delimiter <= r.paren <= |line|
  {
    [')'] + line[r.delimiter..r.paren] + ['"']
  }

  const EMPTIED := "\"\""

  /** The line with the literal emptied whose terminator `end` is at `e` behind its parenthesis. */
  function Replaced(line: string, r: Raw, end: string, e: nat): (s: string)
    requires r.start < r.delimiter <= r.paren < |line| && r.paren + 1 + e + |end| <= |line| && |end| > 1
    ensures |s| < |line|
  {
    line[..r.start] + EMPTIED + line[r.paren + 1..][e + |end|..]
  }

  /** One turn of the loop: the line is done, or it goes on with a shorter one. */
  datatype Strip = Done(line: string, wait: Option<string>) | Again(next: string)

  function StripStep(line: string, commented: string -> bool): (s: Strip)
    ensures s.Again? ==> |s.next| < |line|
  {
    var first := FirstRaw(line, 0);
    if first.None? || commented(line[..first.value.start]) then Done(line, None)
    else StripAt(line, first.value)
  }

  function StripAt(line: string, r: Raw): (s: Strip)
    requires r.start < r.delimiter <= r.paren < |line|
    ensures s.Again? ==> |s.next| < |line|
  {
    var end := Terminator(line, r);
    var found := Find(line[r.paren + 1..], end, 0);
    if found.Some? then Again(Replaced(line, r, end, found.value)) else Done(line[..r.start] + EMPTIED, Some(end))
  }

  /** One line outside a raw string; the second component is the terminator still waited for. */
  function StripLine(line: string, commented: string -> bool): (string, Option<string>)
    decreases |line|
  {
    var s := StripStep(line, commented);
    if s.Done? then (s.line, s.wait) else StripLine(s.next, commented)
  }

  function LeadingSpace(line: string): (s: string)
    ensures s <= line
  {
    if line != [] && IsSpace(line[0]) then [line[0]] + LeadingSpace(line[1..]) else []
  }

  function NextLine(line: string, waiting: Option<string>, commented: string -> bool): (string, Option<string>) {
    match waiting
    case None => StripLine(line, commented)
    case Some(end) =>
      match Find(line, end, 0)
      case Some(e) => StripLine(LeadingSpace(line) + EMPTIED + line[e + |end|..], commented)
      case None => (EMPTIED, waiting)
  }

  function Cleanse(lines: seq<string>, waiting: Option<string>, commented: string -> bool): (r: seq<string>)
    ensures |r| == |lines|
  {
    if lines == [] then []
    else
      var (out, next) := NextLine(lines[0], waiting, commented);
      [out] + Cleanse(lines[1..], next, commented)
  }

  /**
    The inner loop. `commented` answers whether the text before a raw string starts a `//` comment.
    The loop ends because every replacement makes the line shorter.
   */
  method StripRawStrings(rawLine: string, commented: string -> bool) returns (line: string, waiting: Option<string>)
    ensures (line, waiting) == StripLine(rawLine, commented)
  {
    hide RawAt, FirstRaw, Find;
    line, waiting := rawLine, None;
    while waiting.None?
      invariant StripLine(rawLine, commented) ==
                if waiting.None? then StripLine(line, commented) else (line, waiting)
      decreases |line|, waiting.None?
    {
      var m := FirstRaw(line, 0);
      if m.None? || commented(line[..m.value.start]) {
        break;
      }
      var head, body := line[..m.value.start], line[m.value.paren + 1..];
      var terminator := Terminator(line, m.value);
      var end := Find(body, terminator, 0);
      if end.Some? {
        line := Replaced(line, m.value, terminator, end.value);
      } else {
        line, waiting := head + EMPTIED, Some(terminator);
      }
    }
  }

  method CleanseRawStrings(rawLines: seq<string>, commented: string -> bool) returns (r: seq<string>)
    ensures r == Cleanse(rawLines, None, commented)
  {
    hide StripLine, Find, LeadingSpace;
    var waiting: Option<string> := None;
    r := [];
    for i := 0 to |rawLines|
      invariant r + Cleanse(rawLines[i..], waiting, commented) == Cleanse(rawLines, None, commented)
    {
      var line := rawLines[i];
      ghost var goal := NextLine(line, waiting, commented);
      assert rawLines[i..][1..] == rawLines[i + 1..];
      if waiting.Some? {
        var end := Find(line, waiting.value, 0);
        if end.Some? {
          line := LeadingSpace(line) + EMPTIED + line[end.value + |waiting.value|..];
          waiting := None;
        } else {
          line := EMPTIED;
        }
      }
      if waiting.None? {
        line, waiting := StripRawStrings(line, commented);
      }
      r := r + [line];
    }
  }

  // ----- A cleansed file has no raw string left -----

  /** Nothing to do on this line, or the first raw string sits in a comment. */
  predicate Settled(line: string, commented: string -> bool) {
    StripLine(line, commented) == (line, None)
  }

  lemma {:induction false} SameDelimiterEnd(a: string, b: string, i: nat, k: nat)
    requires i <= k <= |a| && k <= |b| && a[..k] == b[..k] && DelimiterEnd(a, i) < k
    ensures DelimiterEnd(b, i) == DelimiterEnd(a, i)
    decreases k - i
  {
    assert a[i] == a[..k][i] == b[..k][i] == b[i];
    if DelimiterChar(a[i]) {
      SameDelimiterEnd(a, b, i + 1, k);
    }
  }

  /** Text before the first raw string, followed by `""`, holds no raw string. */
  lemma HeadIsSettled(line: string, commented: string -> bool)
    requires FirstRaw(line, 0).Some?
    ensures Settled(line[..FirstRaw(line, 0).value.start] + EMPTIED, commented)
  {
    var k := FirstRaw(line, 0).value.start;
    var t := line[..k] + EMPTIED;
    var m := FirstRaw(t, 0);
    if m.Some? {
      assert t[..k] == line[..k];
      SameRaw(t, line, m.value.start, k);
    }
  }

  lemma SameRaw(a: string, b: string, j: nat, k: nat)
    requires j < k <= |a| && k <= |b| && a[..k] == b[..k]
    requires RawAt(a, j).Some? && RawAt(a, j).value.paren < k
    ensures RawAt(b, j) == RawAt(a, j)
  {
    assert forall i :: 0 <= i < k ==> a[i] == a[..k][i] == b[..k][i] == b[i];
    SameDelimiterEnd(a, b, RawAt(a, j).value.delimiter, k);
  }

  lemma {:induction false} StripSettles(line: string, commented: string -> bool)
    ensures Settled(StripLine(line, commented).0, commented)
    decreases |line|
  {
    hide RawAt, FirstRaw, Find;
    match FirstRaw(line, 0)
    case None =>
    case Some(r) =>
      var head := line[..r.start];
      if !commented(head) {
        var body, end := line[r.paren + 1..], Terminator(line, r);
        match Find(body, end, 0)
        case Some(e) => StripSettles(Replaced(line, r, end, e), commented);
        case None => HeadIsSettled(line, commented);
      }
  }

  lemma {:induction false} EmptiedIsSettled(commented: string -> bool)
    ensures Settled(EMPTIED, commented)
  {
    assert '(' !in EMPTIED;
  }

  lemma NextSettles(line: string, waiting: Option<string>, commented: string -> bool)
    ensures Settled(NextLine(line, waiting, commented).0, commented)
  {
    hide StripLine, Settled;
    EmptiedIsSettled(commented);
    match waiting
    case None => StripSettles(line, commented);
    case Some(end) =>
      match Find(line, end, 0)
      case Some(e) => StripSettles(LeadingSpace(line) + EMPTIED + line[e + |end|..], commented);
      case None =>
  }

  /** Cleansing a cleansed file changes nothing, whatever counts as a comment. */
  lemma {:induction false} CleanseTwice(lines: seq<string>, waiting: Option<string>, commented: string -> bool)
    ensures Cleanse(Cleanse(lines, waiting, commented), None, commented) == Cleanse(lines, waiting, commented)
  {
    hide StripLine, Find, LeadingSpace;
    if lines == [] {
    } else {
      var (out, next) := NextLine(lines[0], waiting, commented);
      NextSettles(lines[0], waiting, commented);
      assert NextLine(out, None, commented) == (out, None);
      CleanseTwice(lines[1..], next, commented);
      var rest := Cleanse(lines[1..], next, commented);
      assert ([out] + rest)[1..] == rest;
    }
  }
}
