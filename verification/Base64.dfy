/**
  `base64_encode` and `base64_decode`: streaming codecs that fill a group of three bytes or four
  symbols and flush it. Bit fields are written as division and remainder.
 */
module Base64 {
  import opened Prelude

  type sextet = v: int | 0 <= v < 64

  predicate IsSymbol(c: char) {
    'a' <= c <= 'z' || 'A' <= c <= 'Z' || '0' <= c <= '9' || c == '+' || c == '/'
  }

  /** `base64_chars[v]`. */
  function Symbol(v: sextet): (c: char)
    ensures IsSymbol(c)
  {
    if v < 26 then 'A' + v as char
    else if v < 52 then 'a' + (v - 26) as char
    else if v < 62 then '0' + (v - 52) as char
    else if v == 62 then '+' else '/'
  }

  /** `base64_chars.find(c)`. */
  function Index(c: char): sextet
    requires IsSymbol(c)
  {
    if 'A' <= c <= 'Z' then (c - 'A') as int
    else if 'a' <= c <= 'z' then (c - 'a') as int + 26
    else if '0' <= c <= '9' then (c - '0') as int + 52
    else if c == '+' then 62 else 63
  }

  lemma SymbolIndex(v: sextet, c: char)
    ensures Index(Symbol(v)) == v
    ensures IsSymbol(c) ==> Symbol(Index(c)) == c
  {
  }

  // ----- Groups -----

  function Sextets(a: byte, b: byte, c: byte): (sextet, sextet, sextet, sextet) {
    (a / 4, a % 4 * 16 + b / 16, b % 16 * 4 + c / 64, c % 64)
  }

  function Bytes(p: sextet, q: sextet, r: sextet, s: sextet): (byte, byte, byte) {
    (p * 4 + q / 16, q % 16 * 16 + r / 4, r % 4 * 64 + s)
  }

  lemma Join4(h: nat, l: nat)
    requires l < 4
    ensures (h * 4 + l) / 4 == h && (h * 4 + l) % 4 == l
  {
  }

  lemma Join16(h: nat, l: nat)
    requires l < 16
    ensures (h * 16 + l) / 16 == h && (h * 16 + l) % 16 == l
  {
  }

  lemma Join64(h: nat, l: nat)
    requires l < 64
    ensures (h * 64 + l) / 64 == h && (h * 64 + l) % 64 == l
  {
  }

  lemma GroupRoundTrip(a: byte, b: byte, c: byte)
    ensures var (p, q, r, s) := Sextets(a, b, c); Bytes(p, q, r, s) == (a, b, c)
  {
    var q, r := a % 4 * 16 + b / 16, b % 16 * 4 + c / 64;
    assert q / 16 == a % 4 && q % 16 == b / 16 by { Join16(a % 4, b / 16); }
    assert r / 4 == b % 16 && r % 4 == c / 64 by { Join4(b % 16, c / 64); }
  }

  lemma GroupRoundTripBack(p: sextet, q: sextet, r: sextet, s: sextet)
    ensures var (a, b, c) := Bytes(p, q, r, s); Sextets(a, b, c) == (p, q, r, s)
  {
    var a, b, c := p * 4 + q / 16, q % 16 * 16 + r / 4, r % 4 * 64 + s;
    assert a / 4 == p && a % 4 == q / 16 by { Join4(p, q / 16); }
    assert b / 16 == q % 16 && b % 16 == r / 4 by { Join16(q % 16, r / 4); }
    assert c / 64 == r % 4 && c % 64 == s by { Join64(r % 4, s); }
  }

  // ----- The alphabet and the group as one number -----

  /** `n` characters in a row. */
  function From(c: char, n: nat): string
    requires c as int + n <= 128
  {
    seq(n, i requires 0 <= i < n => c + i as char)
  }

  /** The alphabet of table 1 of RFC 4648. */
  const ALPHABET := From('A', 26) + From('a', 26) + From('0', 10) + "+/"

  /** Symbol `v` is the `v`-th character of the alphabet, and no other character is a symbol. */
  lemma SymbolIs(v: sextet)
    ensures |ALPHABET| == 64 && Symbol(v) == ALPHABET[v]
  {
  }

  lemma AlphabetIs(c: char)
    ensures IsSymbol(c) <==> c in ALPHABET
  {
    if IsSymbol(c) {
      SymbolIndex(0, c);
      SymbolIs(Index(c));
    }
    if i :| 0 <= i < |ALPHABET| && ALPHABET[i] == c {
      SymbolIs(i);
    }
  }

  /** Three bytes are one 24-bit number, and its four symbols are that number's digits to the base 64. */
  lemma GroupIsNumber(a: byte, b: byte, c: byte)
    ensures var (p, q, r, s) := Sextets(a, b, c);
            a * 65536 + b * 256 + c == p * 262144 + q * 4096 + r * 64 + s
  {
  }

  // ----- Whole texts -----

  function EncodeGroup(a: byte, b: byte, c: byte): string {
    var (p, q, r, s) := Sextets(a, b, c);
    [Symbol(p), Symbol(q), Symbol(r), Symbol(s)]
  }

  function EncodeTail(x: seq<byte>): string
    requires |x| < 3
  {
    if |x| == 0 then []
    else if |x| == 1 then EncodeGroup(x[0], 0, 0)[..2] + "=="
    else EncodeGroup(x[0], x[1], 0)[..3] + "="
  }

  function Encode(x: seq<byte>): string {
    if |x| < 3 then EncodeTail(x) else EncodeGroup(x[0], x[1], x[2]) + Encode(x[3..])
  }

  function DecodeGroup(p: char, q: char, r: char, s: char): seq<byte>
    requires IsSymbol(p) && IsSymbol(q) && IsSymbol(r) && IsSymbol(s)
  {
    var (a, b, c) := Bytes(Index(p), Index(q), Index(r), Index(s));
    [a, b, c]
  }

  /** One to three symbols left over: one byte fewer than symbols. */
  function DecodeTail(t: string): seq<byte>
    requires |t| < 4 && forall i :: 0 <= i < |t| ==> IsSymbol(t[i])
  {
    if |t| < 2 then []
    else if |t| == 2 then DecodeGroup(t[0], t[1], 'A', 'A')[..1]
    else DecodeGroup(t[0], t[1], t[2], 'A')[..2]
  }

  /** Number of symbols before the first character that is none. */
  function SymbolCount(t: string): (n: nat)
    ensures n <= |t| && (n < |t| ==> !IsSymbol(t[n]))
    ensures forall i :: 0 <= i < n ==> IsSymbol(t[i])
  {
    if t != [] && IsSymbol(t[0]) then 1 + SymbolCount(t[1..]) else 0
  }

  /** Decoding stops at the first character that is not a symbol. */
  function Decode(t: string): seq<byte> {
    var n := SymbolCount(t);
    if n < 4 then DecodeTail(t[..n]) else DecodeGroup(t[0], t[1], t[2], t[3]) + Decode(t[4..])
  }

  lemma CountCut(t: string, c: char, u: string)
    requires (forall i :: 0 <= i < |t| ==> IsSymbol(t[i])) && !IsSymbol(c)
    ensures SymbolCount(t) == SymbolCount(t + [c] + u) == |t|
  {
    hide IsSymbol;
    var s := t + [c] + u;
    assert s[|t|] == c && forall i :: 0 <= i < |t| ==> s[i] == t[i];
  }

  /** Decoding stops at the first character that is no symbol. */
  lemma {:induction false} DecodeStops(t: string, c: char, u: string)
    requires (forall i :: 0 <= i < |t| ==> IsSymbol(t[i])) && !IsSymbol(c)
    ensures Decode(t + [c] + u) == Decode(t)
    decreases |t|
  {
    var s := t + [c] + u;
    CountCut(t, c, u);
    hide IsSymbol, SymbolCount, DecodeGroup, DecodeTail;
    assert s[..|t|] == t == t[..|t|];
    if |t| >= 4 {
      DecodeStops(t[4..], c, u);
      assert s[4..] == t[4..] + [c] + u;
    }
  }

  /** Every symbol carries six bits, and only whole bytes come out. */
  lemma {:induction false} DecodedSize(t: string)
    ensures |Decode(t)| == SymbolCount(t) * 3 / 4
    decreases |t|
  {
    var n := SymbolCount(t);
    if n < 4 {
    } else {
      DecodedSize(t[4..]);
      CountTail(t);
      hide IsSymbol, SymbolCount, Bytes, Index;
    }
  }

  lemma CountTail(t: string)
    requires SymbolCount(t) >= 4
    ensures SymbolCount(t[4..]) == SymbolCount(t) - 4
  {
    assert t == t[..4] + t[4..];
    SymbolsFirst(t[..4], t[4..]);
  }

  lemma EncodeGroupDecodes(a: byte, b: byte, c: byte)
    ensures var g := EncodeGroup(a, b, c); DecodeGroup(g[0], g[1], g[2], g[3]) == [a, b, c]
  {
    hide Symbol, Index, Sextets, Bytes;
    var (p, q, r, s) := Sextets(a, b, c);
    GroupRoundTrip(a, b, c);
    SymbolIndex(p, 'A'); SymbolIndex(q, 'A'); SymbolIndex(r, 'A'); SymbolIndex(s, 'A');
  }

  lemma DecodeGroupEncodes(p: char, q: char, r: char, s: char)
    requires IsSymbol(p) && IsSymbol(q) && IsSymbol(r) && IsSymbol(s)
    ensures var d := DecodeGroup(p, q, r, s); EncodeGroup(d[0], d[1], d[2]) == [p, q, r, s]
  {
    hide Symbol, Index, Sextets, Bytes, IsSymbol;
    GroupRoundTripBack(Index(p), Index(q), Index(r), Index(s));
    SymbolIndex(0, p); SymbolIndex(0, q); SymbolIndex(0, r); SymbolIndex(0, s);
  }

  lemma SymbolsFirst(g: string, t: string)
    requires |g| == 4 && forall i :: 0 <= i < 4 ==> IsSymbol(g[i])
    ensures SymbolCount(g + t) == 4 + SymbolCount(t)
  {
    hide IsSymbol, SymbolCount;
    var t3 := [g[3]] + t;
    var t2 := [g[2]] + t3;
    var t1 := [g[1]] + t2;
    SymbolFirst(g[3], t);
    SymbolFirst(g[2], t3);
    SymbolFirst(g[1], t2);
    SymbolFirst(g[0], t1);
    assert g == [g[0], g[1], g[2], g[3]];
    assert g + t == [g[0]] + t1;
  }

  lemma SymbolFirst(c: char, t: string)
    requires IsSymbol(c)
    ensures SymbolCount([c] + t) == 1 + SymbolCount(t)
  {
    assert ([c] + t)[1..] == t;
  }

  lemma EncodeGroupSymbols(a: byte, b: byte, c: byte)
    ensures |EncodeGroup(a, b, c)| == 4
    ensures forall i :: 0 <= i < 4 ==> IsSymbol(EncodeGroup(a, b, c)[i])
  {
  }

  lemma DecodeAfterGroup(g: string, t: string)
    requires |g| == 4 && forall i :: 0 <= i < 4 ==> IsSymbol(g[i])
    ensures Decode(g + t) == DecodeGroup(g[0], g[1], g[2], g[3]) + Decode(t)
  {
    SymbolsFirst(g, t);
    assert (g + t)[4..] == t;
  }

  lemma TailRoundTrip(x: seq<byte>)
    requires |x| < 3
    ensures Decode(EncodeTail(x)) == x
  {
    hide IsSymbol, DecodeGroup, EncodeGroup;
    if |x| == 0 {
      assert EncodeTail(x) == [];
    } else if |x| == 1 {
      OneByteTail(x[0]);
    } else {
      TwoByteTail(x[0], x[1]);
    }
  }

  lemma OneByteTail(a: byte)
    ensures Decode(EncodeGroup(a, 0, 0)[..2] + "==") == [a]
  {
    hide Symbol, Index;
    var g := EncodeGroup(a, 0, 0);
    var t := g[..2] + "==";
    EncodeGroupDecodes(a, 0, 0);
    assert t == [g[0]] + ([g[1]] + "==");
    SymbolFirst(g[0], [g[1]] + "==");
    SymbolFirst(g[1], "==");
    assert SymbolCount("==") == 0;
    assert t[..2] == [g[0], g[1]];
    assert DecodeGroup(g[0], g[1], 'A', 'A')[0] == DecodeGroup(g[0], g[1], g[2], g[3])[0] by {
      SymbolIndex(0, 'A');
    }
  }

  lemma TwoByteTail(a: byte, b: byte)
    ensures Decode(EncodeGroup(a, b, 0)[..3] + "=") == [a, b]
  {
    hide Symbol, Index;
    var g := EncodeGroup(a, b, 0);
    var t := g[..3] + "=";
    EncodeGroupDecodes(a, b, 0);
    assert t == [g[0]] + ([g[1]] + ([g[2]] + "="));
    SymbolFirst(g[0], [g[1]] + ([g[2]] + "="));
    SymbolFirst(g[1], [g[2]] + "=");
    SymbolFirst(g[2], "=");
    assert SymbolCount("=") == 0;
    assert t[..3] == [g[0], g[1], g[2]];
  }

  /** Decoding an encoding gives back the bytes. */
  lemma {:induction false} EncodeThenDecode(x: seq<byte>)
    ensures Decode(Encode(x)) == x
    decreases |x|
  {
    hide EncodeGroup, DecodeGroup, IsSymbol, Decode;
    if |x| < 3 {
      TailRoundTrip(x);
    } else {
      var g := EncodeGroup(x[0], x[1], x[2]);
      EncodeGroupSymbols(x[0], x[1], x[2]);
      EncodeGroupDecodes(x[0], x[1], x[2]);
      DecodeAfterGroup(g, Encode(x[3..]));
      EncodeThenDecode(x[3..]);
    }
  }

  // ----- Canonical texts -----

  /** Section 3.5 of RFC 4648: whole groups, padding only at the end, unused bits zero. */
  predicate Canonical(t: string) {
    var n := SymbolCount(t);
    |t| % 4 == 0 &&
    (n == |t|
     || (n > 0 && n == |t| - 1 && t[n] == '=' && Index(t[n - 1]) % 4 == 0)
     || (n > 0 && n == |t| - 2 && t[n] == '=' && t[n + 1] == '=' && Index(t[n - 1]) % 16 == 0))
  }

  lemma CanonicalAfterGroup(g: string, t: string)
    requires |g| == 4 && forall i :: 0 <= i < 4 ==> IsSymbol(g[i])
    requires t != []
    ensures Canonical(g + t) <==> Canonical(t)
  {
    hide IsSymbol;
    SymbolsFirst(g, t);
    var n := SymbolCount(t);
    if n > 0 {
      assert (g + t)[n + 3] == t[n - 1];
    }
    if n < |t| {
      assert (g + t)[n + 4] == t[n];
    }
    if n + 1 < |t| {
      assert (g + t)[n + 5] == t[n + 1];
    }
  }

  lemma LastGroupFull(t: string)
    requires |t| == 4 && forall i :: 0 <= i < 4 ==> IsSymbol(t[i])
    ensures Encode(Decode(t)) == t
  {
    hide IsSymbol, EncodeGroup, DecodeGroup;
    EncodeAfterGroup(t, []);
    DecodeAfterGroup(t, []);
    assert t + [] == t && Decode([]) == [];
    assert Encode([]) == [];
  }

  lemma LastGroupOfThree(p: char, q: char, r: char)
    requires IsSymbol(p) && IsSymbol(q) && IsSymbol(r) && Index(r) % 4 == 0
    ensures Encode(DecodeTail([p, q, r])) == [p, q, r, '=']
  {
    hide Symbol, Index, IsSymbol, Sextets;
    ZeroIndex();
    DecodeGroupEncodes(p, q, r, 'A');
    var d := DecodeGroup(p, q, r, 'A');
    assert d[2] == 0;
    assert DecodeTail([p, q, r]) == [d[0], d[1]];
  }

  lemma LastGroupOfTwo(p: char, q: char)
    requires IsSymbol(p) && IsSymbol(q) && Index(q) % 16 == 0
    ensures Encode(DecodeTail([p, q])) == [p, q, '=', '=']
  {
    hide Symbol, Index, IsSymbol, Sextets;
    ZeroIndex();
    DecodeGroupEncodes(p, q, 'A', 'A');
    var d := DecodeGroup(p, q, 'A', 'A');
    assert d[1] == 0 && d[2] == 0;
    assert DecodeTail([p, q]) == [d[0]];
  }

  lemma CanonicalLast(t: string)
    requires |t| == 4 && Canonical(t)
    ensures Encode(Decode(t)) == t
  {
    hide Encode, DecodeTail, IsSymbol, Index;
    var n := SymbolCount(t);
    if n == 4 {
      LastGroupFull(t);
    } else if n == 3 {
      LastGroupOfThree(t[0], t[1], t[2]);
      assert t[..3] == [t[0], t[1], t[2]] && t == [t[0], t[1], t[2], '='];
    } else {
      LastGroupOfTwo(t[0], t[1]);
      assert t[..2] == [t[0], t[1]] && t == [t[0], t[1], '=', '='];
    }
  }

  lemma ZeroIndex()
    ensures IsSymbol('A') && Index('A') == 0
  {
  }

  /** Encoding the decoding of a canonical text gives back the text. */
  lemma {:induction false} DecodeThenEncode(t: string)
    requires Canonical(t)
    ensures Encode(Decode(t)) == t
    decreases |t|
  {
    hide EncodeGroup, DecodeGroup, IsSymbol, Decode, Canonical;
    if |t| > 4 {
      LeadingGroup(t);
      var g, rest := t[..4], t[4..];
      assert t == g + rest;
      CanonicalAfterGroup(g, rest);
      DecodeAfterGroup(g, rest);
      DecodeThenEncode(rest);
      EncodeAfterGroup(g, Decode(rest));
    } else if t != [] {
      CanonicalLength(t);
      CanonicalLast(t);
    } else {
      NothingDecodes();
    }
  }

  lemma NothingDecodes()
    ensures Encode(Decode("")) == ""
  {
  }

  lemma NothingEncodes()
    ensures Encode([]) == ""
  {
  }

  lemma CanonicalLength(t: string)
    requires Canonical(t)
    ensures |t| % 4 == 0
  {
  }

  lemma LeadingGroup(t: string)
    requires Canonical(t) && |t| > 4
    ensures forall i :: 0 <= i < 4 ==> IsSymbol(t[..4][i])
  {
  }

  lemma EncodeAfterGroup(g: string, x: seq<byte>)
    requires |g| == 4 && forall i :: 0 <= i < 4 ==> IsSymbol(g[i])
    ensures Encode(DecodeGroup(g[0], g[1], g[2], g[3]) + x) == g + Encode(x)
  {
    hide IsSymbol, EncodeGroup;
    DecodeGroupEncodes(g[0], g[1], g[2], g[3]);
    var d := DecodeGroup(g[0], g[1], g[2], g[3]);
    assert |d| == 3 && (d + x)[3..] == x;
    assert g == [g[0], g[1], g[2], g[3]];
  }

  lemma OneByteIsCanonical(a: byte)
    ensures Canonical(EncodeGroup(a, 0, 0)[..2] + "==")
  {
    hide Symbol, Index;
    var g := EncodeGroup(a, 0, 0);
    var t := g[..2] + "==";
    assert t == [g[0]] + ([g[1]] + "==");
    SymbolFirst(g[0], [g[1]] + "==");
    SymbolFirst(g[1], "==");
    assert SymbolCount("==") == 0;
    SymbolIndex(Sextets(a, 0, 0).1, 'A');
  }

  lemma TwoBytesAreCanonical(a: byte, b: byte)
    ensures Canonical(EncodeGroup(a, b, 0)[..3] + "=")
  {
    hide Symbol, Index;
    var g := EncodeGroup(a, b, 0);
    var t := g[..3] + "=";
    assert t == [g[0]] + ([g[1]] + ([g[2]] + "="));
    SymbolFirst(g[0], [g[1]] + ([g[2]] + "="));
    SymbolFirst(g[1], [g[2]] + "=");
    SymbolFirst(g[2], "=");
    assert SymbolCount("=") == 0;
    SymbolIndex(Sextets(a, b, 0).2, 'A');
  }

  lemma TailIsCanonical(x: seq<byte>)
    requires |x| < 3
    ensures Canonical(EncodeTail(x))
  {
    hide EncodeGroup;
    if |x| == 1 {
      OneByteIsCanonical(x[0]);
    } else if |x| == 2 {
      TwoBytesAreCanonical(x[0], x[1]);
    }
  }

  lemma {:induction false} EncodeIsCanonical(x: seq<byte>)
    ensures Canonical(Encode(x))
    decreases |x|
  {
    hide EncodeGroup, IsSymbol, Canonical;
    if |x| < 3 {
      TailIsCanonical(x);
    } else {
      var g := EncodeGroup(x[0], x[1], x[2]);
      EncodeGroupSymbols(x[0], x[1], x[2]);
      EncodeIsCanonical(x[3..]);
      if Encode(x[3..]) == [] {
        assert g + [] == g;
        GroupIsCanonical(g);
      } else {
        CanonicalAfterGroup(g, Encode(x[3..]));
      }
    }
  }

  lemma GroupIsCanonical(g: string)
    requires |g| == 4 && forall i :: 0 <= i < 4 ==> IsSymbol(g[i])
    ensures Canonical(g)
  {
    SymbolsFirst(g, []);
    assert g + [] == g;
  }

  /** A text survives decoding and encoding exactly when it is canonical. */
  lemma CanonicalIsFixed(t: string)
    ensures Encode(Decode(t)) == t <==> Canonical(t)
  {
    hide *;
    if Canonical(t) {
      DecodeThenEncode(t);
    }
    EncodeIsCanonical(Decode(t));
  }

  // ----- The streaming code -----

  method Base64Encode(bytes: seq<byte>) returns (ret: string)
    ensures ret == Encode(bytes)
  {
    hide Encode;
    var char3 := new byte[3];
    var i := 0;
    ret := [];
    for pos := 0 to |bytes|
      invariant 0 <= i < 3 && i <= pos && forall k :: 0 <= k < i ==> char3[k] == bytes[pos - i + k]
      invariant ret + Encode(bytes[pos - i..]) == Encode(bytes)
    {
      ghost var from := bytes[pos - i..];
      char3[i] := bytes[pos];
      i := i + 1;
      assert forall k :: 0 <= k < i ==> char3[k] == from[k];
      if i == 3 {
        assert from[3..] == bytes[pos + 1..];
        var group := FlushTriple(char3, from);
        assert ret + (group + Encode(from[3..])) == ret + group + Encode(from[3..]);
        ret := ret + group;
        i := 0;
      }
    }
    if i > 0 {
      assert bytes[|bytes| - i..] == char3[..i];
      var rest := FlushRest(char3, i);
      ret := ret + rest;
    } else {
      NothingEncodes();
      assert bytes[|bytes|..] == [];
    }
  }

  method FlushTriple(char3: array<byte>, ghost from: seq<byte>) returns (g: string)
    requires char3.Length == 3 <= |from| && forall k :: 0 <= k < 3 ==> char3[k] == from[k]
    ensures Encode(from) == g + Encode(from[3..])
  {
    hide EncodeGroup;
    g := FlushSymbols(char3[0], char3[1], char3[2]);
  }

  /** One or two bytes left: zero fill, one symbol more than bytes, padding. */
  method FlushRest(char3: array<byte>, left: nat) returns (ret: string)
    requires char3.Length == 3 && 0 < left < 3
    modifies char3
    ensures ret == Encode(old(char3[..left]))
  {
    hide EncodeGroup;
    var i := left;
    ghost var from := char3[..i];
    assert Encode(from) == EncodeTail(from);
    for j := i to 3
      invariant char3[..i] == from && forall k :: i <= k < j ==> char3[k] == 0
    {
      char3[j] := 0;
    }
    assert from[0] == char3[0] && (i == 2 ==> from[1] == char3[1]);
    var group := FlushSymbols(char3[0], char3[1], char3[2]);
    ret := group[..i + 1];
    while i < 3
      invariant 0 < i <= 3 && ret + Padding(3 - i) == Encode(from)
    {
      ret := ret + ['='];
      i := i + 1;
    }
  }

  function Padding(n: nat): string
    requires n < 3
  {
    if n == 0 then "" else if n == 1 then "=" else "=="
  }

  /** The four array assignments and the append loop. */
  method FlushSymbols(a: byte, b: byte, c: byte) returns (g: string)
    ensures g == EncodeGroup(a, b, c) && |g| == 4
  {
    var char4 := new sextet[4];
    char4[0] := a / 4;
    char4[1] := a % 4 * 16 + b / 16;
    char4[2] := b % 16 * 4 + c / 64;
    char4[3] := c % 64;
    g := [];
    for i := 0 to 4
      invariant |g| == i && forall k :: 0 <= k < i ==> g[k] == Symbol(char4[k])
    {
      g := g + [Symbol(char4[i])];
    }
  }

  lemma DecodeNext(t: string)
    requires SymbolCount(t) >= 4
    ensures Decode(t) == DecodeGroup(t[0], t[1], t[2], t[3]) + Decode(t[4..])
  {
  }

  lemma {:induction false} SymbolsUpTo(t: string, i: nat)
    requires i <= |t| && (forall k :: 0 <= k < i ==> IsSymbol(t[k])) && (i == |t| || !IsSymbol(t[i]))
    ensures SymbolCount(t) == i
    decreases i
  {
    if i == 0 {
    } else {
      SymbolsUpTo(t[1..], i - 1);
    }
  }

  lemma {:induction false} AtLeast(t: string, i: nat)
    requires i <= |t| && forall k :: 0 <= k < i ==> IsSymbol(t[k])
    ensures SymbolCount(t) >= i
    decreases i
  {
    if i == 0 {
    } else {
      AtLeast(t[1..], i - 1);
    }
  }

  /** Whether the decoder's asserts hold: something shorter than the buffer, or nothing at all. */
  predicate Fits(decoded: nat, len: nat) {
    decoded == 0 || decoded < len
  }

  /**
    `None` stands for a run that an assert ends, possibly after writing past the buffer. Otherwise
    exactly the decoded bytes are written and the rest of the buffer is untouched.
   */
  method Base64Decode(encoded: string, bytes: array<byte>) returns (r: Option<nat>)
    modifies bytes
    ensures r.Some? <==> Fits(|Decode(encoded)|, bytes.Length)
    ensures r.Some? ==> r.value == |Decode(encoded)| <= bytes.Length &&
                        bytes[..r.value] == Decode(encoded) && bytes[r.value..] == old(bytes[r.value..])
  {
    hide IsSymbol, DecodeGroup, Decode, SymbolCount;
    ghost var goal := Decode(encoded);
    var char4 := new char[4](_ => 'A');
    var i: nat, pos: nat, num: nat := 0, 0, 0;
    while pos < |encoded| && encoded[pos] != '=' && IsSymbol(encoded[pos])
      invariant 0 <= i < 4 && i <= pos <= |encoded|
      invariant forall k :: 0 <= k < i ==> char4[k] == encoded[pos - i + k]
      invariant forall k :: 0 <= k < pos ==> IsSymbol(encoded[k])
      invariant num <= bytes.Length && Fits(num, bytes.Length)
      invariant forall k :: num <= k < bytes.Length ==> bytes[k] == old(bytes[k])
      invariant bytes[..num] + Decode(encoded[pos - i..]) == goal
      decreases |encoded| - pos
    {
      ghost var from := encoded[pos - i..];
      char4[i] := encoded[pos];
      i, pos := i + 1, pos + 1;
      if i == 4 {
        assert from[4..] == encoded[pos..];
        var end := FlushGroup(char4, bytes, num, from, goal);
        if end.None? {
          return None;
        }
        num, i := end.value, 0;
      }
    }
    ghost var from := encoded[pos - i..];
    NotPadding();
    SymbolsUpTo(from, i);
    r := FlushTail(char4, i, bytes, num, from);
  }

  /** The symbols left behind the last full group. */
  method FlushTail(char4: array<char>, i: nat, bytes: array<byte>, num: nat, ghost from: string) returns (r: Option<nat>)
    requires char4.Length == 4 && i < 4 && i <= |from| && SymbolCount(from) == i
    requires forall k :: 0 <= k < i ==> char4[k] == from[k] && IsSymbol(from[k])
    requires num <= bytes.Length && Fits(num, bytes.Length)
    modifies bytes
    ensures var n := num + |Decode(from)|;
            (r.Some? <==> Fits(n, bytes.Length)) &&
            (r.Some? ==> r.value == n <= bytes.Length && bytes[..n] == old(bytes[..num]) + Decode(from) &&
                         forall k :: n <= k < bytes.Length ==> bytes[k] == old(bytes[k]))
  {
    DecodeLast(from, i);
    hide IsSymbol, DecodeGroup, Decode, SymbolCount;
    NotPadding();
    if i > 0 {
      assert forall k :: 0 <= k < i ==> from[..i][k] == char4[k];
      var last := DecodeSymbols(char4[0], if i > 1 then char4[1] else 'A', if i > 2 then char4[2] else 'A', 'A');
      r := WriteTail(bytes, num, last[..i - 1]);
    } else {
      r := Some(num);
    }
  }

  /** A full group: decode it and append its bytes. */
  method FlushGroup(char4: array<char>, bytes: array<byte>, num: nat, ghost from: string, ghost goal: seq<byte>)
    returns (end: Option<nat>)
    requires char4.Length == 4 <= |from| && num <= bytes.Length
    requires forall k :: 0 <= k < 4 ==> char4[k] == from[k] && IsSymbol(from[k])
    requires bytes[..num] + Decode(from) == goal
    modifies bytes
    ensures end.Some? ==> end.value == num + 3 < bytes.Length
    ensures end.Some? ==> forall k :: num + 3 <= k < bytes.Length ==> bytes[k] == old(bytes[k])
    ensures end.Some? ==> bytes[..num + 3] + Decode(from[4..]) == goal
    ensures end.None? ==> !Fits(|goal|, bytes.Length)
  {
    hide IsSymbol, DecodeGroup, Decode, SymbolCount;
    AtLeast(from, 4);
    DecodeNext(from);
    var group := DecodeSymbols(char4[0], char4[1], char4[2], char4[3]);
    DecodedLength(bytes[..num], group, from[4..]);
    end := WriteGroup(bytes, num, group);
  }

  lemma DecodedLength(written: seq<byte>, group: seq<byte>, rest: string)
    ensures |written + (group + Decode(rest))| >= |written| + |group|
  {
  }

  /** Three bytes are written, then the assert is made. */
  method WriteGroup(bytes: array<byte>, num: nat, g: seq<byte>) returns (end: Option<nat>)
    requires num <= bytes.Length && |g| == 3
    modifies bytes
    ensures if num + 3 < bytes.Length
            then end == Some(num + 3) && bytes[..num + 3] == old(bytes[..num]) + g &&
                 forall k :: num + 3 <= k < bytes.Length ==> bytes[k] == old(bytes[k])
            else end == None && bytes[..] == old(bytes[..])
  {
    if num + 3 >= bytes.Length {
      return None;
    }
    bytes[num], bytes[num + 1], bytes[num + 2] := g[0], g[1], g[2];
    return Some(num + 3);
  }

  /** The assert follows every byte. */
  method WriteTail(bytes: array<byte>, start: nat, g: seq<byte>) returns (end: Option<nat>)
    requires start <= bytes.Length && Fits(start, bytes.Length)
    modifies bytes
    ensures end.Some? <==> Fits(start + |g|, bytes.Length)
    ensures end.Some? ==> end.value == start + |g| <= bytes.Length
    ensures end.Some? ==> bytes[..end.value] == old(bytes[..start]) + g
    ensures forall k :: start + |g| <= k < bytes.Length ==> bytes[k] == old(bytes[k])
  {
    var num := start;
    for j := 0 to |g|
      invariant num == start + j <= bytes.Length && Fits(num, bytes.Length)
      invariant bytes[..num] == old(bytes[..start]) + g[..j]
      invariant forall k :: num <= k < bytes.Length ==> bytes[k] == old(bytes[k])
    {
      if num + 1 >= bytes.Length {
        return None;
      }
      bytes[num] := g[j];
      num := num + 1;
    }
    return Some(num);
  }

  lemma NotPadding()
    ensures !IsSymbol('=') && IsSymbol('A')
  {
  }

  lemma DecodeLast(t: string, i: nat)
    requires i < 4 && i <= |t| && SymbolCount(t) == i
    ensures Decode(t) == DecodeTail(t[..i])
  {
  }

  /** The three byte assignments, on the symbols' indices. */
  method DecodeSymbols(p: char, q: char, r: char, s: char) returns (g: seq<byte>)
    requires IsSymbol(p) && IsSymbol(q) && IsSymbol(r) && IsSymbol(s)
    ensures g == DecodeGroup(p, q, r, s) && |g| == 3
  {
    hide Index, IsSymbol;
    var v0: int, v1: int, v2: int, v3: int := Index(p), Index(q), Index(r), Index(s);
    g := [v0 * 4 + v1 / 16, v1 % 16 * 16 + v2 / 4, v2 % 4 * 64 + v3];
  }
}
