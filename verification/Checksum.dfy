/** The Internet checksum `csum` (RFC 1071) in a signed 32-bit accumulator, for either host byte order. */
module Checksum {
  import opened Prelude

  newtype int32 = x: int | -0x8000_0000 <= x < 0x8000_0000

  datatype Order = Little | Big

  /** A 16-bit load of two consecutive bytes. */
  function Load(o: Order, a: byte, b: byte): (w: int)
    ensures 0 <= w < 65536
  {
    if o.Little? then a + 256 * b else 256 * a + b
  }

  /** The bytes a 16-bit store leaves in memory. */
  function Store(o: Order, w: int): (byte, byte)
    requires 0 <= w < 65536
  {
    if o.Little? then (w % 256, w / 256) else (w / 256, w % 256)
  }

  /** The sum of the words; an odd last byte is the first byte of a word whose second byte is zero. */
  function WordSum(o: Order, buf: seq<byte>): (s: nat) {
    if |buf| == 0 then 0
    else if |buf| == 1 then Load(o, buf[0], 0)
    else Load(o, buf[0], buf[1]) + WordSum(o, buf[2..])
  }

  /** One's-complement value of a sum: its residue modulo 65535, written 65535 rather than 0 unless the sum is 0. */
  function Residue(s: nat): (r: nat)
    ensures r < 65536
  {
    if s == 0 then 0 else (s - 1) % 65535 + 1
  }

  /** Section 1 of RFC 1071: the complement of the one's-complement sum. */
  function Sum(o: Order, buf: seq<byte>): (c: nat)
    ensures c < 65536
  {
    65535 - Residue(WordSum(o, buf))
  }

  // ----- The code -----

  lemma {:induction false} WordSumBound(o: Order, buf: seq<byte>)
    ensures WordSum(o, buf) <= 65535 * ((|buf| + 1) / 2)
    ensures |buf| % 2 == 1 ==> WordSum(o, buf) <= 65535 * (|buf| / 2) + 65280
    decreases |buf|
  {
    if |buf| <= 1 {
    } else {
      WordSumBound(o, buf[2..]);
    }
  }

  /** Below 2^31 two folds reach the residue. */
  lemma TwoFolds(s: nat)
    requires s < 0x8000_0000
    ensures var f := s / 65536 + s % 65536; (f + f / 65536) % 65536 == Residue(s)
  {
    var hi, lo := s / 65536, s % 65536;
    var f := hi + lo;
    assert s == 65535 * hi + f;
    if f == 0 {
    } else if f < 65536 {
      ResidueUnique(s, f, hi);
    } else {
      ResidueUnique(s, f - 65535, hi + 1);
    }
  }

  lemma ResidueUnique(s: nat, f: int, k: int)
    requires s > 0 && 1 <= f <= 65535 && s == f + 65535 * k
    ensures Residue(s) == f
  {
    assert (s - 1) % 65535 == (f - 1 + 65535 * k) % 65535;
    assert (f - 1) % 65535 == f - 1;
  }

  /** `csum`; the accumulator never overflows on up to 65536 bytes. */
  method Csum(o: Order, buf: seq<byte>) returns (answer: int)
    requires |buf| <= 65536
    ensures answer == Sum(o, buf)
  {
    hide Load, Residue;
    WordSumBound(o, buf);
    var nleft, w := |buf|, 0;
    var sum: int32 := 0;
    while nleft > 1
      invariant 0 <= nleft && w == |buf| - nleft
      invariant 0 <= sum as int && sum as int + WordSum(o, buf[w..]) == WordSum(o, buf) < 0x8000_0000
    {
      assert buf[w..][2..] == buf[w + 2..];
      sum := sum + Load(o, buf[w], buf[w + 1]) as int32;
      w, nleft := w + 2, nleft - 2;
    }
    if nleft == 1 {
      sum := sum + Load(o, buf[w], 0) as int32;
    }
    TwoFolds(sum as int);
    sum := sum / 65536 + sum % 65536;
    sum := sum + sum / 65536;
    answer := 65535 - sum as int % 65536;
  }

  lemma {:induction false} AllOnes(o: Order, n: nat)
    ensures WordSum(o, seq(2 * n, _ => 255)) == 65535 * n
  {
    if n == 0 {
    } else {
      AllOnes(o, n - 1);
      assert seq(2 * n, _ => 255 as byte)[2..] == seq(2 * (n - 1), _ => 255 as byte);
    }
  }

  /** The bound is real: one word more can overflow. */
  lemma BoundIsExact(n: nat)
    ensures (forall o: Order, buf: seq<byte> :: |buf| == n ==> WordSum(o, buf) < 0x8000_0000) <==> n <= 65536
  {
    if n <= 65536 {
      forall o: Order, buf: seq<byte> | |buf| == n
        ensures WordSum(o, buf) < 0x8000_0000
      {
        WordSumBound(o, buf);
      }
    } else {
      var buf: seq<byte> := seq(2 * (n / 2), _ => 255);
      AllOnes(Big, n / 2);
      if n % 2 == 0 {
        assert WordSum(Big, buf) >= 0x8000_0000;
      } else {
        OddByte(Big, buf, 255);
        assert |buf + [255]| == n && WordSum(Big, buf + [255]) >= 0x8000_0000;
      }
    }
  }

  // ----- Odd lengths, changed words -----

  /** An odd length sums like the buffer padded with a zero byte. */
  lemma {:induction false} OddByte(o: Order, buf: seq<byte>, last: byte)
    requires |buf| % 2 == 0
    ensures WordSum(o, buf + [last]) == WordSum(o, buf) + Load(o, last, 0)
    ensures Sum(o, buf + [last]) == Sum(o, buf + [last, 0])
    decreases |buf|
  {
    OddByteSum(o, buf, last);
  }

  lemma {:induction false} OddByteSum(o: Order, buf: seq<byte>, last: byte)
    requires |buf| % 2 == 0
    ensures WordSum(o, buf + [last]) == WordSum(o, buf) + Load(o, last, 0) == WordSum(o, buf + [last, 0])
    decreases |buf|
  {
    if |buf| > 0 {
      OddByteSum(o, buf[2..], last);
      assert (buf + [last])[2..] == buf[2..] + [last];
      assert (buf + [last, 0])[2..] == buf[2..] + [last, 0];
    } else {
      assert [last, 0][2..] == [];
    }
  }

  lemma {:induction false} ChangedWord(o: Order, buf: seq<byte>, k: nat, a: byte, b: byte)
    requires k % 2 == 0 && k + 1 < |buf|
    ensures WordSum(o, buf[k := a][k + 1 := b]) == WordSum(o, buf) - Load(o, buf[k], buf[k + 1]) + Load(o, a, b)
    decreases |buf|
  {
    var new_ := buf[k := a][k + 1 := b];
    if k == 0 {
      assert new_[2..] == buf[2..];
    } else {
      ChangedWord(o, buf[2..], k - 2, a, b);
      assert new_[2..] == buf[2..][k - 2 := a][k - 1 := b];
    }
  }

  lemma LoadStore(o: Order, w: int)
    requires 0 <= w < 65536
    ensures Load(o, Store(o, w).0, Store(o, w).1) == w
  {
  }

  /** Writing the checksum into its zeroed field makes the checksum of the whole zero. */
  lemma FilledFieldVerifies(o: Order, buf: seq<byte>, k: nat)
    requires k % 2 == 0 && k + 1 < |buf| && buf[k] == 0 && buf[k + 1] == 0
    ensures var (a, b) := Store(o, Sum(o, buf)); Sum(o, buf[k := a][k + 1 := b]) == 0
  {
    hide Store, WordSum;
    var s, c := WordSum(o, buf), Sum(o, buf);
    var (a, b) := Store(o, c);
    ChangedWord(o, buf, k, a, b);
    LoadStore(o, c);
    if s > 0 {
      ResidueUnique(s + c, 65535, (s - 1) / 65535);
    }
  }

  // ----- Byte order -----

  /** The sum of the second bytes of the words. */
  function SecondBytes(buf: seq<byte>): nat {
    if |buf| < 2 then 0 else buf[1] + SecondBytes(buf[2..])
  }

  /** Swapping the bytes of every word multiplies the sum by 256 modulo 65535. */
  lemma {:induction false} SwappedSum(buf: seq<byte>)
    ensures 256 * WordSum(Little, buf) == WordSum(Big, buf) + 65535 * SecondBytes(buf)
    ensures WordSum(Little, buf) == 0 <==> WordSum(Big, buf) == 0
    decreases |buf|
  {
    if |buf| <= 1 {
    } else {
      SwappedSum(buf[2..]);
    }
  }

  lemma SwappedResidue(s: nat, t: nat, seconds: nat)
    requires s > 0 && t > 0 && 256 * s == t + 65535 * seconds
    ensures Residue(t) == Residue(s) % 256 * 256 + Residue(s) / 256
  {
    var f, m := Residue(s), (s - 1) / 65535;
    var h, l := f / 256, f % 256;
    assert s == f + 65535 * m;
    assert f == 256 * h + l;
    ResidueUnique(t, 256 * l + h, h + 256 * m - seconds);
  }

  lemma SwappedStore(c: nat, d: nat)
    requires c < 65536 && d < 65536 && 65535 - d == (65535 - c) % 256 * 256 + (65535 - c) / 256
    ensures Store(Little, c) == Store(Big, d)
  {
    var h, l := (65535 - c) / 256, (65535 - c) % 256;
    Split(c, 255 - h, 255 - l);
    Split(d, 255 - l, 255 - h);
  }

  lemma Split(w: nat, h: nat, l: nat)
    requires l < 256 && w == 256 * h + l
    ensures w / 256 == h && w % 256 == l
  {
  }

  /** Section 2(B) of RFC 1071: the checksum bytes in memory do not depend on the host's byte order. */
  lemma OrderIndependent(buf: seq<byte>)
    ensures Store(Little, Sum(Little, buf)) == Store(Big, Sum(Big, buf))
  {
    hide Store, WordSum;
    SwappedSum(buf);
    if WordSum(Little, buf) > 0 {
      SwappedResidue(WordSum(Little, buf), WordSum(Big, buf), SecondBytes(buf));
    }
    SwappedStore(Sum(Little, buf), Sum(Big, buf));
  }

  // ----- Permutations -----

  type word = (byte, byte)

  function Words(buf: seq<byte>): seq<word> {
    if |buf| == 0 then [] else if |buf| == 1 then [(buf[0], 0)] else [(buf[0], buf[1])] + Words(buf[2..])
  }

  function Total(o: Order, ws: seq<word>): nat {
    if ws == [] then 0 else Load(o, ws[0].0, ws[0].1) + Total(o, ws[1..])
  }

  lemma {:induction false} TotalOfWords(o: Order, buf: seq<byte>)
    ensures Total(o, Words(buf)) == WordSum(o, buf)
    decreases |buf|
  {
    if |buf| > 1 {
      TotalOfWords(o, buf[2..]);
      assert Words(buf)[1..] == Words(buf[2..]);
    } else if |buf| == 1 {
      assert Words(buf)[1..] == [];
    }
  }

  lemma {:induction false} TotalConcat(o: Order, a: seq<word>, b: seq<word>)
    ensures Total(o, a + b) == Total(o, a) + Total(o, b)
  {
    if a == [] {
      assert a + b == b;
    } else {
      TotalConcat(o, a[1..], b);
      assert (a + b)[1..] == a[1..] + b;
    }
  }

  lemma {:induction false} TotalPermuted(o: Order, a: seq<word>, b: seq<word>)
    requires multiset(a) == multiset(b)
    ensures Total(o, a) == Total(o, b)
    decreases |a|
  {
    hide Total;
    if a == [] {
      assert multiset(b) == multiset{};
      assert b == [];
    } else {
      var w := a[0];
      assert w in multiset(b);
      var i :| 0 <= i < |b| && b[i] == w;
      Without(a, 0);
      Without(b, i);
      TotalWithout(o, a, 0);
      TotalWithout(o, b, i);
      TotalPermuted(o, a[..0] + a[1..], b[..i] + b[i + 1..]);
    }
  }

  lemma TotalWithout(o: Order, b: seq<word>, i: nat)
    requires i < |b|
    ensures Total(o, b) == Load(o, b[i].0, b[i].1) + Total(o, b[..i] + b[i + 1..])
  {
    assert b == b[..i] + ([b[i]] + b[i + 1..]);
    TotalConcat(o, b[..i], [b[i]] + b[i + 1..]);
    TotalConcat(o, b[..i], b[i + 1..]);
    assert ([b[i]] + b[i + 1..])[1..] == b[i + 1..];
  }

  lemma Without(a: seq<word>, i: nat)
    requires i < |a|
    ensures multiset(a[..i] + a[i + 1..]) == multiset(a) - multiset{a[i]}
  {
    assert a == a[..i] + [a[i]] + a[i + 1..];
  }

  /** Section 2(A) of RFC 1071: the order of the words does not matter. */
  lemma PermutedWords(o: Order, a: seq<byte>, b: seq<byte>)
    requires multiset(Words(a)) == multiset(Words(b))
    ensures Sum(o, a) == Sum(o, b)
  {
    TotalOfWords(o, a);
    TotalOfWords(o, b);
    TotalPermuted(o, Words(a), Words(b));
  }
}
