/** The Internet checksum: the daemon's deferred-carry loop against the sum of section 2 of RFC 1071. */
module Checksum {
  import opened Common

  /** A big-endian 16-bit word. */
  function Word(hi: byte, lo: byte): (w: nat)
    ensures w <= 0xffff
  {
    (hi as int) * 256 + lo as int
  }

  // ---- the specification -------------------------------------------------------------------

  /** One's complement addition of 16-bit words: the carry out of the top goes back in at the bottom. */
  function OcAdd(x: nat, y: nat): (s: nat)
    requires x <= 0xffff && y <= 0xffff
    ensures s <= 0xffff
  {
    if x + y > 0xffff then x + y - 0xffff else x + y
  }

  /** Sum the words of b onto acc one at a time; an odd last byte is padded with a zero byte. */
  function OcSum(acc: nat, b: seq<byte>): (s: nat)
    requires acc <= 0xffff
    ensures s <= 0xffff
    decreases |b|
  {
    if |b| == 0 then acc
    else if |b| == 1 then OcAdd(acc, Word(b[0], 0))
    else OcSum(OcAdd(acc, Word(b[0], b[1])), b[2..])
  }

  /** RFC 1071: the complement of the one's complement sum. */
  function Rfc1071(b: seq<byte>): (c: nat)
    ensures c <= 0xffff
  {
    0xffff - OcSum(0, b)
  }

  // ---- what the code computes ----------------------------------------------------------------

  /** The same words added as plain integers. */
  function WordSum(b: seq<byte>): nat
    decreases |b|
  {
    if |b| == 0 then 0
    else if |b| == 1 then Word(b[0], 0)
    else Word(b[0], b[1]) + WordSum(b[2..])
  }

  /** The fold of deferred carries, run until none is left. */
  function Fold(sum: nat): (s: nat)
    ensures s <= 0xffff && (s == 0 <==> sum == 0)
    decreases sum
  {
    if sum / 0x10000 == 0 then sum else Fold(sum % 0x10000 + sum / 0x10000)
  }

  /** A uint32 keeps the low 32 bits. */
  function Wrap32(x: nat): (w: nat)
    ensures w < 0x1_0000_0000 && (x < 0x1_0000_0000 ==> w == x)
  {
    if x < 0x1_0000_0000 then x else x % 0x1_0000_0000
  }

  lemma WrapAdd(x: nat, y: nat)
    ensures Wrap32(Wrap32(x) + y) == Wrap32(x + y)
  {}

  /** The uint32 accumulator wraps, so this is what the code returns on every buffer. */
  function Sum16(b: seq<byte>): (c: nat)
    ensures c <= 0xffff
  {
    0xffff - Fold(Wrap32(WordSum(b)))
  }

  method ComputeChecksum(b: seq<byte>) returns (c: nat)
    ensures c == Sum16(b)
    ensures |b| <= 131074 ==> c == Rfc1071(b)
  {
    var sum := SumWords(b);
    sum := FoldCarries(sum);
    c := 0xffff - sum;
    if |b| <= 131074 {
      Sum16IsRfc1071(b);
    }
  }

  /** The accumulation loop of ComputeChecksum. */
  method SumWords(b: seq<byte>) returns (sum: nat)
    ensures sum == Wrap32(WordSum(b))
  {
    sum := 0;
    var i := 0;
    while i + 1 < |b|
      invariant 0 <= i <= |b| && i % 2 == 0 && sum == Wrap32(WordSum(b[..i]))
    {
      NextWord(b, i);
      sum := Wrap32(sum + Word(b[i], b[i + 1]));
      i := i + 2;
    }
    if |b| % 2 == 1 {
      LastByte(b);
      sum := Wrap32(sum + Word(b[|b| - 1], 0));
    } else {
      assert b == b[..i];
    }
  }

  /** Its fold loop. */
  method FoldCarries(total: nat) returns (sum: nat)
    ensures sum == Fold(total)
  {
    sum := total;
    while sum / 0x10000 != 0
      invariant Fold(sum) == Fold(total)
      decreases sum
    {
      sum := sum % 0x10000 + sum / 0x10000;
    }
  }

  lemma NextWord(b: seq<byte>, i: nat)
    requires i + 1 < |b| && i % 2 == 0
    ensures Wrap32(WordSum(b[..i + 2])) == Wrap32(Wrap32(WordSum(b[..i])) + Word(b[i], b[i + 1]))
  {
    WordSumConcat(b[..i], [b[i], b[i + 1]]);
    assert b[..i + 2] == b[..i] + [b[i], b[i + 1]];
    assert [b[i], b[i + 1]][2..] == [];
    WrapAdd(WordSum(b[..i]), Word(b[i], b[i + 1]));
  }

  lemma LastByte(b: seq<byte>)
    requires |b| % 2 == 1
    ensures Wrap32(WordSum(b)) == Wrap32(Wrap32(WordSum(b[..|b| - 1])) + Word(b[|b| - 1], 0))
  {
    var i := |b| - 1;
    WordSumConcat(b[..i], [b[i]]);
    assert b == b[..i] + [b[i]];
    WrapAdd(WordSum(b[..i]), Word(b[i], 0));
  }

  // ---- the two agree -------------------------------------------------------------------------

  lemma {:induction false} WordSumConcat(x: seq<byte>, y: seq<byte>)
    requires |x| % 2 == 0
    ensures WordSum(x + y) == WordSum(x) + WordSum(y)
    decreases |x|
  {
    if |x| == 0 {
      assert x + y == y;
    } else {
      assert (x + y)[2..] == x[2..] + y;
      WordSumConcat(x[2..], y);
    }
  }

  lemma {:induction false} WordSumBound(b: seq<byte>)
    ensures 2 * WordSum(b) <= 0xffff * (|b| + 1) && (|b| % 2 == 0 ==> 2 * WordSum(b) <= 0xffff * |b|)
    decreases |b|
  {
    if |b| >= 2 {
      WordSumBound(b[2..]);
    }
  }

  /** Folding only takes multiples of 65535 away. */
  lemma {:induction false} FoldResidue(sum: nat) returns (k: nat)
    ensures Fold(sum) + 0xffff * k == sum
    decreases sum
  {
    if sum / 0x10000 == 0 {
      k := 0;
    } else {
      k := FoldResidue(sum % 0x10000 + sum / 0x10000);
      k := k + sum / 0x10000;
    }
  }

  /** So does adding the carries at once; and neither sum is zero unless every word is. */
  lemma {:induction false} OcSumResidue(acc: nat, b: seq<byte>) returns (k: nat)
    requires acc <= 0xffff
    ensures OcSum(acc, b) + 0xffff * k == acc + WordSum(b)
    ensures OcSum(acc, b) == 0 <==> acc + WordSum(b) == 0
    decreases |b|
  {
    if |b| == 0 {
      k := 0;
    } else {
      var w := Word(b[0], if |b| == 1 then 0 else b[1]);
      var carry := if acc + w > 0xffff then 1 else 0;
      if |b| == 1 {
        k := carry;
      } else {
        k := OcSumResidue(OcAdd(acc, w), b[2..]);
        k := k + carry;
      }
    }
  }

  /** A residue modulo 65535 together with zero-ness determines a 16-bit value. */
  lemma FoldIsOcSum(b: seq<byte>)
    ensures Fold(WordSum(b)) == OcSum(0, b)
  {
    var j := FoldResidue(WordSum(b));
    var k := OcSumResidue(0, b);
    ResidueDetermines(Fold(WordSum(b)), OcSum(0, b), j, k);
  }

  lemma ResidueDetermines(x: nat, y: nat, j: nat, k: nat)
    requires x <= 0xffff && y <= 0xffff && (x == 0 <==> y == 0) && x + 0xffff * j == y + 0xffff * k
    ensures x == y
  {}

  /** Up to 131074 bytes the accumulator never overflows and the code computes the RFC's checksum. */
  lemma Sum16IsRfc1071(b: seq<byte>)
    requires |b| <= 131074
    ensures WordSum(b) < 0x1_0000_0000 && Sum16(b) == Rfc1071(b)
  {
    WordSumBound(b);
    FoldIsOcSum(b);
  }

  lemma {:induction false} Ones(n: nat)
    ensures 2 * WordSum(seq(2 * n, i => 0xff)) == 0xffff * 2 * n
  {
    if n > 0 {
      var s, t := seq(2 * n, i => 0xff), seq(2 * (n - 1), i => 0xff);
      assert s[2..] == t;
      Ones(n - 1);
    }
  }

  /** Whether two folds leave the same residue, when one of the sums lost q units of 2 to the 32. */
  lemma LostResidue(x: nat, w: nat, q: nat, fx: nat, fw: nat, j: nat, k: nat)
    requires w == x + q * 0x1_0000_0000 && fx + 0xffff * j == x && fw + 0xffff * k == w
    ensures fw + 0xffff * k == fx + q + 0xffff * (j + 65537 * q)
  {}

  /**
    On any buffer: the two agree exactly if the units of 2 to the 32 that wrapping dropped are a
    multiple of 65535, and what it left is zero only if there was nothing.
   */
  lemma AgreesExactly(b: seq<byte>)
    ensures
      var w := WordSum(b);
      Sum16(b) == Rfc1071(b) <==> w / 0x1_0000_0000 % 0xffff == 0 && (Wrap32(w) == 0 ==> w == 0)
  {
    var w := WordSum(b);
    var q, x := w / 0x1_0000_0000, Wrap32(w);
    FoldIsOcSum(b);
    var j := FoldResidue(x);
    var k := FoldResidue(w);
    LostResidue(x, w, q, Fold(x), Fold(w), j, k);
    SameResidue(Fold(x), Fold(w), q, j + 65537 * q, k);
  }

  lemma SameResidue(fx: nat, fw: nat, q: nat, j: nat, k: nat)
    requires fx <= 0xffff && fw <= 0xffff && fw + 0xffff * k == fx + q + 0xffff * j
    ensures fx == fw <==> q % 0xffff == 0 && (fx == 0 <==> fw == 0)
  {
    if fx == fw {
      assert q == 0xffff * (k - j);
    }
    if q % 0xffff == 0 && (fx == 0 <==> fw == 0) {
      ResidueDetermines(fx, fw, j + q / 0xffff, k);
    }
  }

  function Blank(n: nat): (b: seq<byte>)
    ensures |b| == n && forall i :: 0 <= i < n ==> b[i] == 0
  {
    seq(n, i => 0)
  }

  lemma {:induction false} BlanksAddNothing(b: seq<byte>)
    requires forall i :: 0 <= i < |b| ==> b[i] == 0
    ensures WordSum(b) == 0
    decreases |b|
  {
    if |b| >= 2 { BlanksAddNothing(b[2..]); }
  }

  /** A lone byte, then zeros: one word. */
  lemma OneWord(b: seq<byte>)
    requires |b| > 0 && b[0] == 0xff && forall i :: 1 <= i < |b| ==> b[i] == 0
    ensures WordSum(b) == 0xff00
  {
    if |b| >= 2 { BlanksAddNothing(b[2..]); }
  }

  /** At every greater length it can overflow: the bound is the best there is. */
  lemma OverflowBeyondBound(n: nat) returns (b: seq<byte>)
    requires n > 131074
    ensures |b| == n && Sum16(b) != Rfc1071(b)
  {
    var ones, tail := seq(2 * 65537, i => 0xff), [0xff] + Blank(n - 131075);
    b := ones + tail;
    Ones(65537);
    OneWord(tail);
    WordSumConcat(ones, tail);
    assert WordSum(b) == 0x1_0000_0000 - 1 + 0xff00;
    FoldIsOcSum(b);
  }

  // ---- what a receiver checks ------------------------------------------------------------------

  function Be16(x: nat): (b: seq<byte>)
    ensures |b| == 2 && (x <= 0xffff ==> Word(b[0], b[1]) == x)
  {
    [x / 256 % 256, x % 256]
  }

  /**
    Storing the checksum of a buffer into its zeroed, even-aligned field makes the buffer sum to
    all ones, so that the receiver's checksum of it is zero.  A checksum of 0 may be stored as
    0xffff instead, as UDP does.
   */
  lemma StoredChecksumVerifies(x: seq<byte>, y: seq<byte>, c: nat)
    requires |x| % 2 == 0 && |x| + 2 + |y| <= 131074
    requires c == Sum16(x + [0, 0] + y) || (c == 0xffff && Sum16(x + [0, 0] + y) == 0)
    ensures Sum16(x + Be16(c) + y) == 0
  {
    var a, b := x + [0, 0] + y, x + Be16(c) + y;
    StoredAdds(x, y, c);
    StoredIsOnes(a, b, c);
  }

  lemma StoredAdds(x: seq<byte>, y: seq<byte>, c: nat)
    requires |x| % 2 == 0 && c <= 0xffff
    ensures WordSum(x + Be16(c) + y) == WordSum(x + [0, 0] + y) + c
  {
    WordSumConcat(x + [0, 0], y);
    WordSumConcat(x, [0, 0]);
    WordSumConcat(x + Be16(c), y);
    WordSumConcat(x, Be16(c));
    assert [0, 0][2..] == [] && Be16(c)[2..] == [];
  }

  lemma StoredIsOnes(a: seq<byte>, b: seq<byte>, c: nat)
    requires |a| <= 131074 && |b| <= 131074 && WordSum(b) == WordSum(a) + c
    requires c == Sum16(a) || (c == 0xffff && Sum16(a) == 0)
    ensures Sum16(b) == 0
  {
    Sum16IsRfc1071(a);
    Sum16IsRfc1071(b);
    ComplementCloses(a, b, c);
  }

  lemma ComplementCloses(a: seq<byte>, b: seq<byte>, c: nat)
    requires WordSum(b) == WordSum(a) + c
    requires c == Rfc1071(a) || (c == 0xffff && Rfc1071(a) == 0)
    ensures Rfc1071(b) == 0
  {
    var j := OcSumResidue(0, a);
    var k := OcSumResidue(0, b);
    var carry := if c == Rfc1071(a) then 0 else 1;
    assert OcSum(0, b) + 0xffff * k == 0xffff + 0xffff * (j + carry);
    ResidueDetermines(OcSum(0, b), 0xffff, k, j + carry);
  }
}
