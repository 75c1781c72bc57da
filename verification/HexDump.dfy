/** Packet hex dumps: `getHex`, `getRidOfSpacesFromString`, `convertHexStringToBinary` and their composition. */
module HexDump {
  import opened Prelude
  import opened HexDigits

  const NUL: char := '\0'

  // ----- What a dump is -----

  function HexByte(b: byte): string {
    [Digit(b / 16, true), Digit(b % 16, true), ' ']
  }

  function HexRow(row: seq<byte>): string {
    if row == [] then "" else HexByte(row[0]) + HexRow(row[1..])
  }

  /** Rows of `cols` bytes; a row break is written only when more than one byte is left. */
  function Dump(buf: seq<byte>, cols: nat): string
    requires cols > 0
    decreases |buf|
  {
    if |buf| <= cols then HexRow(buf)
    else HexRow(buf[..cols]) + (if |buf| - cols > 1 then "\n" else "") + Dump(buf[cols..], cols)
  }

  function RowBreaks(n: nat, cols: nat): nat
    requires cols > 0
  {
    if n <= cols then 0 else (if n - cols > 1 then 1 else 0) + RowBreaks(n - cols, cols)
  }

  lemma {:induction false} RowLength(row: seq<byte>)
    ensures |HexRow(row)| == 3 * |row|
  {
    if row == [] {
    } else {
      RowLength(row[1..]);
    }
  }

  lemma {:induction false} DumpLength(buf: seq<byte>, cols: nat)
    requires cols > 0
    ensures |Dump(buf, cols)| == 3 * |buf| + RowBreaks(|buf|, cols)
    decreases |buf|
  {
    hide HexRow;
    if |buf| <= cols {
      RowLength(buf);
    } else {
      RowLength(buf[..cols]);
      DumpLength(buf[cols..], cols);
    }
  }

  // ----- getHex -----

  /** How many characters `snprintf` stores, the terminator included; a negative size is taken as a huge one. */
  function Stored(size: int, n: nat): nat {
    if size == 0 then 0 else if 0 < size <= n then size else n + 1
  }

  /** `snprintf(hex + at, size, text)`; not ok when it would store beyond the buffer. */
  method Snprintf(hex: array<char>, at: nat, size: int, text: string) returns (ok: bool)
    modifies hex
    ensures ok <==> size == 0 || at + Stored(size, |text|) <= hex.Length
    ensures ok && size != 0 ==>
            var k := Stored(size, |text|) - 1;
            0 <= k <= |text| && hex[..at + k] == old(hex[..at]) + text[..k] && hex[at + k] == NUL
    ensures !ok || size == 0 ==> hex[..] == old(hex[..])
  {
    ok := size == 0 || at + Stored(size, |text|) <= hex.Length;
    if ok && size != 0 {
      var k := Stored(size, |text|) - 1;
      for i := 0 to k
        invariant hex[..at] == old(hex[..at]) && hex[at..at + i] == text[..i]
      {
        hex[at + i] := text[i];
      }
      hex[at + k] := NUL;
      assert hex[..at + k] == hex[..at] + hex[at..at + k];
    }
  }

  /** The first `n` of the characters, or as many as there are. */
  function Cut(s: string, n: int): string {
    if n <= 0 then "" else if n < |s| then s[..n] else s
  }

  /** The buffer holds the text, cut so that the terminator fits. */
  predicate HoldsCut(hex: array<char>, text: string)
    reads hex
  {
    var k := |Cut(text, hex.Length - 1)|;
    k < hex.Length && hex[..k] == Cut(text, hex.Length - 1) && hex[k] == NUL
  }

  /** How many bytes are written before the count of free characters is used up. */
  function Fitting(room: int, n: nat): nat {
    if room <= 0 then 0 else if 3 * n <= room then n else (room + 2) / 3
  }

  lemma {:induction false} RowAppend(row: seq<byte>, b: byte)
    ensures HexRow(row + [b]) == HexRow(row) + HexByte(b)
  {
    hide HexByte;
    if row == [] {
      assert row + [b] == [b] && [b][1..] == [];
    } else {
      RowAppend(row[1..], b);
      assert (row + [b])[1..] == row[1..] + [b];
    }
  }

  lemma ByteLength(b: byte)
    ensures |HexByte(b)| == 3
  {
  }

  /** One more byte in the buffer. */
  method WriteByte(hex: array<char>, at: nat, left: int, b: byte, ghost text: string, ghost late: nat)
    returns (ok: bool)
    requires at <= hex.Length && 0 < left == hex.Length - at + late && hex[..at] == text
    modifies hex
    ensures ok <==> late == 0 || at + 3 < hex.Length
    ensures ok ==> HoldsCut(hex, text + HexByte(b))
  {
    hide HexByte;
    ByteLength(b);
    ok := Snprintf(hex, at, left, HexByte(b));
    ghost var k := Stored(left, 3) - 1;
    if ok {
      assert text + HexByte(b)[..k] == Cut(text + HexByte(b), hex.Length - 1);
    }
  }

  /**
    The inner loop. `room` is what the code takes for the free space, which is right until the first row
    break: `late` counts the characters that it forgot.
   */
  method WriteRow(hex: array<char>, at: nat, room: int, row: seq<byte>, ghost late: nat)
    returns (ok: bool, k: nat)
    requires at <= hex.Length && 0 < room == hex.Length - at + late && row != []
    modifies hex
    ensures ok <==> late == 0 || at + 3 * |row| < hex.Length
    ensures ok ==> k == Fitting(room, |row|) && 0 < k <= |row| && HoldsCut(hex, old(hex[..at]) + HexRow(row[..k]))
  {
    hide HexRow, HexByte;
    ghost var text := old(hex[..at]);
    var left := room;
    k := 0;
    EmptyRow(row, text);
    while k < |row| && left > 0
      invariant 0 <= k <= |row| && left == room - 3 * k > -3
      invariant text == old(hex[..at]) + HexRow(row[..k]) && |text| == at + 3 * k
      invariant if k == 0 then hex[..at] == text else HoldsCut(hex, text)
      invariant late > 0 && k > 0 ==> |text| < hex.Length
    {
      if k > 0 {
        FittingText(hex, text);
      }
      ok := WriteByte(hex, at + 3 * k, left, row[k], text, late);
      if !ok {
        return;
      }
      RowAppend(row[..k], row[k]);
      ByteLength(row[k]);
      assert row[..k + 1] == row[..k] + [row[k]];
      text := text + HexByte(row[k]);
      k, left := k + 1, left - 3;
    }
    ok := true;
  }

  lemma EmptyRow(row: seq<byte>, text: string)
    ensures text + HexRow(row[..0]) == text
  {
  }

  lemma FittingText(hex: array<char>, text: string)
    requires |text| < hex.Length && (HoldsCut(hex, text) || hex[..|text|] == text)
    ensures hex[..|text|] == text
  {
  }

  /** Every character that `getHex` stores lies in a buffer of this length. */
  predicate StaysInside(n: nat, length: nat, cols: nat)
    requires cols > 0
  {
    n == 0 || length < 4 || 3 * n + RowBreaks(n, cols) + 1 <= length ||
    ((n <= cols + 1 || length <= 3 * cols) && (length % 3 == 0 || n <= (length + 2) / 3 + 1))
  }

  lemma FirstBreak(n: nat, cols: nat)
    requires cols > 0
    ensures RowBreaks(n, cols) == 0 <==> n <= cols + 1
  {
  }

  /** The row break behind a row, when more than one byte is left. */
  method WriteBreak(hex: array<char>, at: nat, left: int, ghost text: string)
    returns (ok: bool)
    requires |text| == at && HoldsCut(hex, text)
    modifies hex
    ensures ok <==> left == 0 || at + Stored(left, 1) <= hex.Length
    ensures ok && left == 0 ==> HoldsCut(hex, text)
    ensures ok && left != 0 && at + 1 < hex.Length && left > 1 ==> hex[..at + 1] == text + "\n"
  {
    ok := Snprintf(hex, at, left, "\n");
    if at + 1 < hex.Length {
      assert "\n"[..1] == "\n";
    }
  }

  /** What the buffer shows is the beginning of the dump, when the first row is cut. */
  lemma CutRow(buf: seq<byte>, cols: nat, k: nat, length: nat)
    requires cols > 0 && k <= |buf| && k <= cols && length <= 3 * k
    ensures Cut(HexRow(buf[..k]), length - 1) == Cut(Dump(buf, cols), length - 1)
  {
    hide HexRow;
    var m := if |buf| <= cols then |buf| else cols;
    RowSplit(buf[..m], k);
    assert buf[..m][..k] == buf[..k];
    RowLength(buf[..k]);
    assert |buf| <= cols ==> buf[..m] == buf;
    assert HexRow(buf[..k]) <= Dump(buf, cols);
  }

  lemma {:induction false} RowSplit(row: seq<byte>, k: nat)
    requires k <= |row|
    ensures HexRow(row) == HexRow(row[..k]) + HexRow(row[k..])
  {
    hide HexByte;
    if k == 0 {
      assert row[k..] == row;
    } else {
      RowSplit(row[1..], k - 1);
      assert row[..k][1..] == row[1..][..k - 1] && row[1..][k - 1..] == row[k..];
    }
  }

  lemma DumpRow(rest: seq<byte>, cols: nat)
    requires cols > 0 && rest != []
    ensures var m := if |rest| <= cols then |rest| else cols;
            var brk := if |rest| - m > 1 then "\n" else "";
            |HexRow(rest[..m])| == 3 * m &&
            Dump(rest, cols) == HexRow(rest[..m]) + brk + Dump(rest[m..], cols) &&
            RowBreaks(|rest|, cols) == |brk| + RowBreaks(|rest| - m, cols)
  {
    hide HexRow;
    var m := if |rest| <= cols then |rest| else cols;
    RowLength(rest[..m]);
    if |rest| <= cols {
      assert rest[..m] == rest && rest[m..] == [];
      NoRow();
    }
  }

  lemma NoRow()
    ensures HexRow([]) == ""
  {
  }

  /** Where the code stands at the start of a row, `late` row breaks into the dump. */
  ghost predicate AtRow(n: nat, length: nat, cols: nat, done: nat, late: nat)
    requires cols > 0
  {
    done < n && 3 * done < length && 3 * done + late <= length &&
    late + RowBreaks(n - done, cols) == RowBreaks(n, cols) &&
    (late == 0 ==> done == 0 || (done == cols && n == cols + 1)) &&
    (late > 0 ==> n > cols + 1 && length > 3 * cols)
  }

  /** The row at hand, and how many of its bytes the code writes. */
  ghost predicate RowAt(n: nat, length: nat, cols: nat, done: nat, late: nat, m: nat, k: nat)
    requires cols > 0
  {
    length >= 4 && AtRow(n, length, cols, done, late) && m == (if n - done <= cols then n - done else cols) &&
    k == Fitting(length - 3 * done, m)
  }

  /** A row that does not fit behind a break shows that the whole dump does not fit. */
  lemma RowOverruns(n: nat, length: nat, cols: nat, done: nat, late: nat, m: nat, k: nat)
    requires cols > 0 && RowAt(n, length, cols, done, late, m, k)
    requires late > 0 && 3 * done + late + 3 * m >= length
    ensures !StaysInside(n, length, cols)
  {
    hide RowBreaks;
  }

  /** Only the first row can be cut. */
  lemma CutOnlyFirst(n: nat, length: nat, cols: nat, done: nat, late: nat, m: nat, k: nat)
    requires cols > 0 && RowAt(n, length, cols, done, late, m, k) && (late == 0 || 3 * done + late + 3 * m < length)
    ensures 0 < k <= m && (late > 0 ==> k == m && 3 * (done + k) + late < length)
    ensures k < m || length <= 3 * (done + k) ==>
            late == 0 && (done == 0 || done + k == n) && k == (length - 3 * done + 2) / 3
  {
    hide RowBreaks;
  }

  lemma NextRowBreaks(n: nat, cols: nat)
    requires n > cols > 0
    ensures RowBreaks(n, cols) == (if n - cols > 1 then 1 else 0) + RowBreaks(n - cols, cols)
  {
  }

  /** Behind the row with a break: overrun, end of a cut dump, or the next row. */
  lemma AfterBreak(n: nat, length: nat, cols: nat, done: nat, late: nat, m: nat, k: nat)
    requires cols > 0 && RowAt(n, length, cols, done, late, m, k) && (late == 0 || 3 * done + late + 3 * m < length)
    requires n - done - k > 1
    ensures var left, at := length - 3 * (done + k), 3 * (done + k) + late;
            var ok := left == 0 || at + Stored(left, 1) <= length;
            (ok && left <= 0 ==> StaysInside(n, length, cols) && done == 0 && late == 0 && k <= cols) &&
            (ok && left > 0 ==> k == m == cols && AtRow(n, length, cols, done + k, late + 1) &&
                                (at + 1 < length ==> left > 1)) &&
            (!ok ==> !StaysInside(n, length, cols))
  {
    CutOnlyFirst(n, length, cols, done, late, m, k);
    if n - done > cols {
      NextRowBreaks(n - done, cols);
    }
    FirstBreak(n, cols);
    hide RowBreaks;
  }

  /** Behind the row without a break: the end, or one more byte. */
  lemma AfterRow(n: nat, length: nat, cols: nat, done: nat, late: nat, m: nat, k: nat)
    requires cols > 0 && RowAt(n, length, cols, done, late, m, k) && (late == 0 || 3 * done + late + 3 * m < length)
    requires n - done - k <= 1
    ensures var left := length - 3 * (done + k);
            (done + k == n || left <= 0 ==> StaysInside(n, length, cols)) &&
            (done + k < n && left <= 0 ==> done == 0 && late == 0 && k <= cols) &&
            (done + k < n && left > 0 ==> k == m == cols && AtRow(n, length, cols, done + k, late))
  {
    CutOnlyFirst(n, length, cols, done, late, m, k);
    if n - done > cols {
      NextRowBreaks(n - done, cols);
    }
    FirstBreak(n, cols);
    FirstBreak(n - done, cols);
    hide RowBreaks;
  }

  lemma SameCut(hex: array<char>, a: string, b: string)
    requires HoldsCut(hex, a) && Cut(a, hex.Length - 1) == Cut(b, hex.Length - 1)
    ensures HoldsCut(hex, b)
  {
  }

  /** What has been written is the beginning of the dump; `late` of it are row breaks. */
  ghost predicate Begun(buf: seq<byte>, cols: nat, done: nat, late: nat, text: string)
    requires cols > 0
  {
    done <= |buf| && |text| == 3 * done + late && text + Dump(buf[done..], cols) == Dump(buf, cols)
  }

  lemma AtRowBasics(n: nat, length: nat, cols: nat, done: nat, late: nat)
    requires cols > 0 && AtRow(n, length, cols, done, late)
    ensures done < n && 3 * done < length && 3 * done + late <= length
  {
  }

  lemma WholeRow(buf: seq<byte>, cols: nat, done: nat, late: nat, text: string, m: nat)
    requires cols > 0 && done < |buf| && m == (if |buf| - done <= cols then |buf| - done else cols)
    requires Begun(buf, cols, done, late, text)
    ensures var text' := text + HexRow(buf[done..][..m]);
            if |buf| - done - m > 1 then Begun(buf, cols, done + m, late + 1, text' + "\n")
            else Begun(buf, cols, done + m, late, text')
  {
    hide HexRow, Dump;
    DumpRow(buf[done..], cols);
    assert buf[done..][m..] == buf[done + m..];
    var row, rest := HexRow(buf[done..][..m]), Dump(buf[done + m..], cols);
    if |buf| - done - m > 1 {
      assert text + (row + "\n" + rest) == text + row + "\n" + rest;
    } else {
      assert text + (row + "" + rest) == text + row + rest;
    }
  }

  lemma WholeDump(buf: seq<byte>, cols: nat, late: nat, text: string)
    requires cols > 0 && Begun(buf, cols, |buf|, late, text)
    ensures text == Dump(buf, cols)
  {
    assert buf[|buf|..] == [];
  }

  /** The text so far is in the buffer, unless it already fills the buffer. */
  ghost predicate Shown(hex: array<char>, text: string)
    reads hex
  {
    |text| <= hex.Length && (|text| < hex.Length ==> hex[..|text|] == text)
  }

  /** One turn of the outer loop: a row and, when more than one byte is left, a row break. */
  method WriteLine(hex: array<char>, buf: seq<byte>, cols: nat, from: nat, off: nat, room: int,
                   ghost late: nat, ghost text: string)
    returns (ok: bool, done: nat, end: nat, ghost late': nat, ghost text': string)
    requires cols > 0 && hex.Length >= 4 && AtRow(|buf|, hex.Length, cols, from, late)
    requires Begun(buf, cols, from, late, text) && Shown(hex, text) && off == |text| && room == hex.Length - 3 * from
    modifies hex
    ensures !ok ==> !StaysInside(|buf|, hex.Length, cols)
    ensures ok ==> from < done <= |buf|
    ensures ok && (done == |buf| || hex.Length <= 3 * done) ==>
            StaysInside(|buf|, hex.Length, cols) && HoldsCut(hex, Dump(buf, cols))
    ensures ok && done < |buf| && hex.Length > 3 * done ==>
            AtRow(|buf|, hex.Length, cols, done, late') && Begun(buf, cols, done, late', text') &&
            Shown(hex, text') && end == |text'|
  {
    hide HexRow, Dump, RowBreaks, AtRow, StaysInside, HoldsCut, Cut, Fitting;
    AtRowBasics(|buf|, hex.Length, cols, from, late);
    var n, length := |buf|, hex.Length;
    var m := if n - from <= cols then n - from else cols;
    var row := buf[from..][..m];
    var k;
    done, end, late', text' := from, off, late, text;
    ok, k := WriteRow(hex, off, room, row, late);
    if !ok {
      RowOverruns(n, length, cols, from, late, m, Fitting(room, m));
      return;
    }
    RowLength(row[..k]);
    WholeRow(buf, cols, from, late, text, m);
    text' := old(hex[..off]) + HexRow(row[..k]);
    done, end := from + k, off + 3 * k;
    var left := room - 3 * k;
    CutOnlyFirst(n, length, cols, from, late, m, k);
    if n - done > 1 {
      AfterBreak(n, length, cols, from, late, m, k);
      ok := WriteBreak(hex, end, left, text');
      if !ok {
        return;
      }
      end := end + 1;
      if left > 0 {
        assert row[..k] == row;
        late', text' := late + 1, text' + "\n";
        return;
      }
    } else {
      AfterRow(n, length, cols, from, late, m, k);
      if left > 0 || done == n {
        assert row[..k] == row;
      }
      if done == n {
        WholeDump(buf, cols, late, text');
        return;
      } else if left > 0 {
        FittingText(hex, text');
        return;
      }
    }
    assert row[..k] == buf[..k] && text' == HexRow(buf[..k]);
    CutRow(buf, cols, k, length);
    SameCut(hex, HexRow(buf[..k]), Dump(buf, cols));
  }

  /**
    `getHex` keeps inside the buffer exactly when the dump fits with its terminator, or is cut in its first
    row at a place where no break is attempted. Then the buffer holds the dump, cut if need be.
   */
  method GetHex(buf: seq<byte>, hex: array<char>, numCol: nat) returns (ok: bool)
    requires numCol > 0
    modifies hex
    ensures ok <==> StaysInside(|buf|, hex.Length, numCol)
    ensures ok ==> if hex.Length == 0 || (buf != [] && hex.Length < 4) then hex[..] == old(hex[..])
                   else HoldsCut(hex, Dump(buf, numCol))
  {
    hide HexRow, StaysInside, HoldsCut, RowBreaks;
    if |buf| == 0 {
      if hex.Length > 0 {
        hex[0] := NUL;
      }
      EmptyDump(buf, hex, numCol);
      return true;
    }
    if hex.Length < 4 {
      EmptyDump(buf, hex, numCol);
      return true;
    }
    var done, off, room := 0, 0, hex.Length;
    ghost var late, text := 0, "";
    assert buf[0..] == buf;
    hide Dump;
    while true
      invariant AtRow(|buf|, hex.Length, numCol, done, late) && Begun(buf, numCol, done, late, text)
      invariant Shown(hex, text) && off == |text| && room == hex.Length - 3 * done
      decreases |buf| - done
    {
      ok, done, off, late, text := WriteLine(hex, buf, numCol, done, off, room, late, text);
      if !ok {
        return;
      }
      room := hex.Length - 3 * done;
      if done == |buf| || room <= 0 {
        return;
      }
    }
  }

  lemma EmptyDump(buf: seq<byte>, hex: array<char>, cols: nat)
    requires cols > 0 && (buf == [] || hex.Length < 4)
    ensures StaysInside(|buf|, hex.Length, cols)
    ensures buf == [] && hex.Length > 0 && hex[0] == NUL ==> HoldsCut(hex, Dump(buf, cols))
  {
  }

  // ----- getRidOfSpacesFromString -----

  function Without(s: string, c: char): string {
    if s == "" then "" else (if s[0] == c then "" else [s[0]]) + Without(s[1..], c)
  }

  lemma Regroup<T>(x: seq<T>, y: seq<T>, z: seq<T>)
    ensures (x + y) + z == x + (y + z)
  {
  }

  lemma {:induction false} WithoutConcat(a: string, b: string, c: char)
    ensures Without(a + b, c) == Without(a, c) + Without(b, c)
  {
    if a == "" {
      assert a + b == b;
    } else {
      WithoutConcat(a[1..], b, c);
      assert (a + b)[1..] == a[1..] + b;
      var first := if a[0] == c then "" else [a[0]];
      assert Without(a + b, c) == first + Without(a[1..] + b, c) && Without(a, c) == first + Without(a[1..], c);
      hide Without;
      Regroup(first, Without(a[1..], c), Without(b, c));
    }
  }

  /** The string that ends at the first terminator. */
  predicate Holds(a: array<char>, s: string)
    reads a
  {
    |s| < a.Length && a[..|s|] == s && a[|s|] == NUL && NUL !in s
  }

  /** In place: the string without its spaces, nothing written beyond its old terminator. */
  method GetRidOfSpaces(a: array<char>, ghost s: string)
    requires Holds(a, s)
    modifies a
    ensures |Without(s, ' ')| <= |s| && Holds(a, Without(s, ' '))
    ensures forall k :: |s| < k < a.Length ==> a[k] == old(a[k])
  {
    var i, j := 0, 0;
    while a[j] != NUL
      invariant 0 <= i <= j <= |s| && (a[j] == NUL ==> j == |s|)
      invariant a[..i] == Without(s[..j], ' ') && NUL !in a[..i]
      invariant forall k :: j <= k < a.Length ==> a[k] == old(a[k])
      decreases |s| - j
    {
      WithoutConcat(s[..j], [s[j]], ' ');
      assert s[..j + 1] == s[..j] + [s[j]];
      assert old(a[..|s|])[j] == s[j];
      assert Without([s[j]], ' ') == if s[j] == ' ' then "" else [s[j]] by { assert [s[j]][1..] == ""; }
      ghost var kept := a[..i];
      a[i] := a[j];
      j := j + 1;
      assert a[..i] == kept;
      if a[i] != ' ' {
        i := i + 1;
        assert a[..i] == kept + [s[j - 1]];
      }
      assert j < |s| ==> old(a[..|s|])[j] == s[j] != NUL;
    }
    assert s[..j] == s;
    a[i] := NUL;
  }

  // ----- convertHexStringToBinary -----

  /** Two characters per byte; a last single character is dropped. */
  function Pairs(s: string): seq<byte> {
    if |s| < 2 then [] else [CharToInt(s[0]) * 16 + CharToInt(s[1])] + Pairs(s[2..])
  }

  method HexStringToBinary(s: string, target: array<byte>) returns (n: int)
    modifies target
    ensures n == if |Pairs(s)| <= target.Length then |Pairs(s)| else -1
    ensures n >= 0 ==> target[..n] == Pairs(s)
  {
    hide CharToInt;
    n := 0;
    var pos := 0;
    while pos + 1 < |s|
      invariant 0 <= pos <= |s| && 0 <= n <= target.Length
      invariant target[..n] + Pairs(s[pos..]) == Pairs(s)
    {
      assert s[pos..][2..] == s[pos + 2..];
      if n >= target.Length {
        return -1;
      }
      ghost var before := target[..n];
      target[n] := CharToInt(s[pos]) * 16 + CharToInt(s[pos + 1]);
      assert target[..n + 1] == before + [CharToInt(s[pos]) * 16 + CharToInt(s[pos + 1])];
      pos, n := pos + 2, n + 1;
    }
  }

  /** `convertHexPktStrToPkt`: spaces go, row breaks stay and read as zero digits. */
  method HexPktStrToPkt(hex: array<char>, ghost s: string, pkt: array<byte>) returns (n: int)
    requires Holds(hex, s)
    modifies hex, pkt
    ensures var bytes := Pairs(Without(s, ' '));
            n == (if |bytes| <= pkt.Length then |bytes| else -1) && (n >= 0 ==> pkt[..n] == bytes)
  {
    GetRidOfSpaces(hex, s);
    var end := 0;
    while hex[end] != NUL
      invariant 0 <= end <= |Without(s, ' ')|
      invariant hex[..|Without(s, ' ')|] == Without(s, ' ')
      decreases |Without(s, ' ')| - end
    {
      end := end + 1;
    }
    n := HexStringToBinary(hex[..end], pkt);
  }

  // ----- Round trip -----

  /** The digits alone. */
  function Digits(buf: seq<byte>): string {
    if buf == [] then "" else [Digit(buf[0] / 16, true), Digit(buf[0] % 16, true)] + Digits(buf[1..])
  }

  lemma {:induction false} RowWithoutSpaces(row: seq<byte>)
    ensures Without(HexRow(row), ' ') == Digits(row)
  {
    hide Digit;
    if row == [] {
    } else {
      var b := row[0];
      DigitRoundTrip(b / 16, true);
      DigitRoundTrip(b % 16, true);
      WithoutConcat(HexByte(b), HexRow(row[1..]), ' ');
      ByteWithoutSpace(Digit(b / 16, true), Digit(b % 16, true));
      RowWithoutSpaces(row[1..]);
    }
  }

  lemma ByteWithoutSpace(a: char, b: char)
    requires a != ' ' && b != ' '
    ensures Without([a, b, ' '], ' ') == [a, b]
  {
    assert [a, b, ' '][1..] == [b, ' '] && [b, ' '][1..] == [' '] && [' '][1..] == "";
    assert Without([' '], ' ') == "" && Without([b, ' '], ' ') == [b];
  }

  lemma PairsFirst(a: char, b: char, rest: string)
    ensures Pairs([a, b] + rest) == [CharToInt(a) * 16 + CharToInt(b)] + Pairs(rest)
  {
    hide CharToInt;
    assert ([a, b] + rest)[2..] == rest;
  }

  lemma DigitsFirst(a: seq<byte>)
    requires a != []
    ensures Digits(a) == [Digit(a[0] / 16, true), Digit(a[0] % 16, true)] + Digits(a[1..])
  {
  }

  lemma {:induction false} PairsOfDigits(a: seq<byte>, rest: string)
    ensures Pairs(Digits(a) + rest) == a + Pairs(rest)
    decreases |a|
  {
    if a == [] {
      assert Digits(a) + rest == rest;
    } else {
      hide Digit, CharToInt, Digits, Pairs;
      var high, low := Digit(a[0] / 16, true), Digit(a[0] % 16, true);
      DigitRoundTrip(a[0] / 16, true);
      DigitRoundTrip(a[0] % 16, true);
      PairsOfDigits(a[1..], rest);
      DigitsFirst(a);
      Regroup([high, low], Digits(a[1..]), rest);
      PairsFirst(high, low, Digits(a[1..]) + rest);
      assert [a[0]] + a[1..] == a;
      Regroup([a[0]], a[1..], Pairs(rest));
    }
  }

  lemma {:induction false} DigitsConcat(a: seq<byte>, b: seq<byte>)
    ensures Digits(a + b) == Digits(a) + Digits(b)
    decreases |a|
  {
    hide Digit;
    if a == [] {
      assert a + b == b;
    } else {
      DigitsConcat(a[1..], b);
      assert (a + b)[1..] == a[1..] + b;
      var first := [Digit(a[0] / 16, true), Digit(a[0] % 16, true)];
      assert first + (Digits(a[1..]) + Digits(b)) == first + Digits(a[1..]) + Digits(b);
    }
  }

  lemma {:induction false} DigitsWithoutBreaks(a: seq<byte>)
    ensures Without(Digits(a), '\n') == Digits(a)
  {
    hide Digit;
    if a == [] {
    } else {
      var p, q := Digit(a[0] / 16, true), Digit(a[0] % 16, true);
      DigitRoundTrip(a[0] / 16, true);
      DigitRoundTrip(a[0] % 16, true);
      WithoutConcat([p, q], Digits(a[1..]), '\n');
      assert [p, q][1..] == [q] && [q][1..] == "";
      assert Without([q], '\n') == [q];
      DigitsWithoutBreaks(a[1..]);
    }
  }

  /** Without spaces a dump is its digits with the row breaks between them. */
  lemma DumpWithoutSpaces(buf: seq<byte>, cols: nat)
    requires cols > 0
    ensures Without(Dump(buf, cols), ' ') ==
            if |buf| <= cols then Digits(buf)
            else Digits(buf[..cols]) + (if |buf| - cols > 1 then "\n" else "") + Without(Dump(buf[cols..], cols), ' ')
  {
    hide Digits, HexRow;
    if |buf| <= cols {
      RowWithoutSpaces(buf);
    } else {
      var brk := if |buf| - cols > 1 then "\n" else "";
      var rest := Dump(buf[cols..], cols);
      RowWithoutSpaces(buf[..cols]);
      WithoutConcat(HexRow(buf[..cols]) + brk, rest, ' ');
      WithoutConcat(HexRow(buf[..cols]), brk, ' ');
      assert Without(brk, ' ') == brk by { assert brk == "" || brk[1..] == ""; }
    }
  }

  lemma {:induction false} DumpWithoutBreaks(buf: seq<byte>, cols: nat)
    requires cols > 0
    ensures Without(Without(Dump(buf, cols), ' '), '\n') == Digits(buf)
    decreases |buf|
  {
    hide Dump, Digits;
    DumpWithoutSpaces(buf, cols);
    if |buf| <= cols {
      DigitsWithoutBreaks(buf);
    } else {
      var brk := if |buf| - cols > 1 then "\n" else "";
      var rest := Without(Dump(buf[cols..], cols), ' ');
      DumpWithoutBreaks(buf[cols..], cols);
      WithoutConcat(Digits(buf[..cols]) + brk, rest, '\n');
      WithoutConcat(Digits(buf[..cols]), brk, '\n');
      assert Without(brk, '\n') == "" by { assert brk == "" || brk[1..] == ""; }
      DigitsWithoutBreaks(buf[..cols]);
      DigitsConcat(buf[..cols], buf[cols..]);
      assert buf[..cols] + buf[cols..] == buf;
    }
  }

  /** Once the row breaks are removed, any dump reads back as the packet. */
  lemma DumpReadsBack(buf: seq<byte>, cols: nat)
    requires cols > 0
    ensures Pairs(Without(Without(Dump(buf, cols), ' '), '\n')) == buf
  {
    hide Digits, Dump, Without;
    DumpWithoutBreaks(buf, cols);
    PairsOfDigits(buf, "");
    assert Digits(buf) + "" == Digits(buf);
  }

  /** Every digit of `r` is `x`. */
  predicate AllDigits(r: seq<byte>, x: nibble) {
    forall i :: 0 <= i < |r| ==> r[i] == 17 * x
  }

  /** Read one place off, the first byte takes its high digit from the left and leaves its low one. */
  lemma ShiftedFirst(c: char, r: seq<byte>)
    requires r != []
    ensures Pairs([c] + Digits(r)) ==
            [CharToInt(c) * 16 + r[0] / 16] + Pairs([Digit(r[0] % 16, true)] + Digits(r[1..]))
  {
    hide Digit, CharToInt, Digits, Pairs;
    var high, low := Digit(r[0] / 16, true), Digit(r[0] % 16, true);
    DigitRoundTrip(r[0] / 16, true);
    DigitsFirst(r);
    assert [c] + Digits(r) == [c, high] + ([low] + Digits(r[1..]));
    PairsFirst(c, high, [low] + Digits(r[1..]));
  }

  lemma {:induction false} ShiftedDigits(c: char, r: seq<byte>)
    ensures Pairs([c] + Digits(r)) == r <==> AllDigits(r, CharToInt(c))
    decreases |r|
  {
    hide Digit, CharToInt;
    if r == [] {
    } else {
      hide Digits, Pairs, AllDigits;
      var b, low := r[0], Digit(r[0] % 16, true);
      DigitRoundTrip(b % 16, true);
      ShiftedDigits(low, r[1..]);
      ShiftedFirst(c, r);
      var first, tail := CharToInt(c) * 16 + b / 16, Pairs([low] + Digits(r[1..]));
      assert [first] + tail == r <==> first == b && tail == r[1..] by {
        assert ([first] + tail)[0] == first && ([first] + tail)[1..] == tail && r == [b] + r[1..];
      }
      SplitNibbles(CharToInt(c), b);
      AllDigitsFirst(r, CharToInt(c));
    }
  }

  lemma SplitNibbles(x: nibble, b: byte)
    ensures x * 16 + b / 16 == b <==> b == 17 * x
    ensures b == 17 * x ==> b % 16 == x
  {
  }

  lemma AllDigitsFirst(r: seq<byte>, x: nibble)
    requires r != []
    ensures AllDigits(r, x) <==> r[0] == 17 * x && AllDigits(r[1..], x)
  {
    if r[0] == 17 * x && AllDigits(r[1..], x) {
      forall i | 0 <= i < |r| ensures r[i] == 17 * x {
        if i > 0 {
          assert r[i] == r[1..][i - 1];
        }
      }
    }
  }

  lemma {:induction false} PairsLength(s: string)
    ensures |Pairs(s)| == |s| / 2
    decreases |s|
  {
    if |s| < 2 {
    } else {
      PairsLength(s[2..]);
    }
  }

  lemma {:induction false} SpacelessLength(buf: seq<byte>, cols: nat)
    requires cols > 0
    ensures |Without(Dump(buf, cols), ' ')| == 2 * |buf| + RowBreaks(|buf|, cols)
    decreases |buf|
  {
    hide Dump, Digits, Without;
    DumpWithoutSpaces(buf, cols);
    if |buf| <= cols {
      DigitsLength(buf);
    } else {
      DigitsLength(buf[..cols]);
      SpacelessLength(buf[cols..], cols);
    }
  }

  lemma {:induction false} DigitsLength(a: seq<byte>)
    ensures |Digits(a)| == 2 * |a|
  {
    if a == [] {
    } else {
      DigitsLength(a[1..]);
    }
  }

  /** What a reader of the dump as it stands gets right. */
  predicate ReadsAsIs(buf: seq<byte>, cols: nat)
    requires cols > 0
  {
    |buf| <= cols + 1 ||
    (RowBreaks(|buf|, cols) == 1 && forall i :: cols <= i < |buf| ==> buf[i] == 0)
  }

  lemma OneBreakTail(n: nat, cols: nat)
    requires cols > 0 && n > cols + 1 && RowBreaks(n, cols) == 1
    ensures RowBreaks(n - cols, cols) == 0 && n - cols <= cols + 1
  {
  }

  /** Up to one byte more than a row there is no break and the spaceless dump is the digits. */
  lemma ShortDump(buf: seq<byte>, cols: nat)
    requires cols > 0 && |buf| <= cols + 1
    ensures Without(Dump(buf, cols), ' ') == Digits(buf)
  {
    hide Dump, Digits, Without;
    DumpWithoutSpaces(buf, cols);
    if |buf| == cols + 1 {
      DumpWithoutSpaces(buf[cols..], cols);
      DigitsConcat(buf[..cols], buf[cols..]);
      assert buf[..cols] + buf[cols..] == buf;
    }
  }

  /**
    Parsing the dump as it stands returns the packet exactly when the dump has no row break, or has
    one and only zero bytes follow it.
   */
  lemma DumpReadsAsIsIff(buf: seq<byte>, cols: nat)
    requires cols > 0
    ensures Pairs(Without(Dump(buf, cols), ' ')) == buf <==> ReadsAsIs(buf, cols)
  {
    hide Dump, Digits, Without, Pairs;
    if |buf| <= cols + 1 {
      ShortDump(buf, cols);
      PairsOfNothing();
      PairsOfDigits(buf, "");
      assert Digits(buf) + "" == Digits(buf);
    } else if RowBreaks(|buf|, cols) == 1 {
      var head, rest := buf[..cols], buf[cols..];
      OneBreakTail(|buf|, cols);
      DumpWithoutSpaces(buf, cols);
      ShortDump(rest, cols);
      PairsOfDigits(head, "\n" + Digits(rest));
      assert Digits(head) + "\n" + Digits(rest) == Digits(head) + ("\n" + Digits(rest));
      ShiftedDigits('\n', rest);
      BreakTail(buf, cols, Pairs("\n" + Digits(rest)));
    } else {
      SpacelessLength(buf, cols);
      PairsLength(Without(Dump(buf, cols), ' '));
    }
  }

  lemma PairsOfNothing()
    ensures Pairs("") == []
  {
  }

  lemma BreakTail(buf: seq<byte>, cols: nat, tail: seq<byte>)
    requires cols <= |buf|
    ensures buf[..cols] + tail == buf <==> tail == buf[cols..]
    ensures CharToInt('\n') == 0
    ensures AllDigits(buf[cols..], 0) <==> forall i :: cols <= i < |buf| ==> buf[i] == 0
  {
    assert buf == buf[..cols] + buf[cols..];
    if buf[..cols] + tail == buf {
      assert tail == (buf[..cols] + tail)[cols..];
    }
    if AllDigits(buf[cols..], 0) {
      forall i | cols <= i < |buf| ensures buf[i] == 0 {
        assert buf[i] == buf[cols..][i - cols];
      }
    }
  }
}
