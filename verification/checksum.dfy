/** The Internet checksum as the ping sender computes it (`calculateChecksum`),
    and the reference definition of section 1 of RFC 1071 it is proved against. */
module Checksum {

  /** Go's `byte` (uint8). */
  type byte = x: int | 0 <= x < 0x100

  /** Go's `uint16`. */
  type uint16 = x: int | 0 <= x < 0x1_0000

  /** The big-endian 16-bit word with high byte `hi` and low byte `lo`:
      `int(hi)<<8 | int(lo)`, where the or is an addition because the
      shifted value has no low bits set. */
  function Word(hi: byte, lo: byte): uint16
  {
    hi * 0x100 + lo
  }

  /** The sum of the big-endian 16-bit words of `s`; a trailing odd byte is
      the high byte of a word whose low byte is zero. */
  function WordSum(s: seq<byte>): nat
  {
    if |s| == 0 then 0
    else if |s| == 1 then Word(s[0], 0)
    else Word(s[0], s[1]) + WordSum(s[2..])
  }

  /** One carry fold, `(sum >> 16) + (sum & 0xffff)` on a non-negative sum. */
  function Fold(x: nat): nat
  {
    x / 0x1_0000 + x % 0x1_0000
  }

  /** Go's `^x` on a signed integer: two's-complement bitwise not. */
  function Not(x: int): int
  {
    -x - 1
  }

  /** Go's conversion `uint16(x)`: the low 16 bits of the two's-complement
      representation of `x`. */
  function ToUint16(x: int): uint16
  {
    x % 0x1_0000
  }

  /** The result of the source's final three steps on a word sum: a masked
      fold, an unmasked second fold, then complement and truncation. */
  function FoldTwice(x: nat): uint16
  {
    var once := Fold(x);
    var twice := once + once / 0x1_0000;
    ToUint16(Not(twice))
  }

  /** The smallest word sum at which the source's two fixed folds no longer
      drain every carry (2^32 + 0xFFFF): below it they agree with RFC 1071,
      at it they do not. */
  const FoldTwiceLimit: nat := 0x1_0000_FFFF

  /** The checksum the source computes for `s`. */
  function FoldTwiceChecksum(s: seq<byte>): uint16
  {
    FoldTwice(WordSum(s))
  }

  // ---------------------------------------------------------------------
  // Reference: the one's-complement sum of section 1 of RFC 1071
  // ---------------------------------------------------------------------

  /** A fold keeps the value modulo 0xFFFF (since 0x10000 is 1 modulo 0xFFFF)
      and, while there is a carry, strictly shrinks a positive value. */
  lemma FoldStep(x: nat)
    ensures Fold(x) % 0xFFFF == x % 0xFFFF
    ensures x >= 0x1_0000 ==> 0 < Fold(x) < x
  {
    var q, r := x / 0x1_0000, x % 0x1_0000;
    assert x == 0xFFFF * q + (q + r);
    ModAddMultiple(q + r, q);
  }

  lemma ModAddMultiple(a: int, k: int)
    ensures (a + 0xFFFF * k) % 0xFFFF == a % 0xFFFF
  {
    var m := a + 0xFFFF * k;
    assert m == 0xFFFF * (a / 0xFFFF + k) + a % 0xFFFF;
    ModUnique(m, a / 0xFFFF + k, a % 0xFFFF);
  }

  lemma ModUnique(m: int, q: int, r: int)
    requires 0 <= r < 0xFFFF
    requires m == 0xFFFF * q + r
    ensures m % 0xFFFF == r
  {
  }

  /** The end-around-carry reduction of section 1 of RFC 1071: carries are
      folded back in until the sum fits in 16 bits. The result is congruent
      to `x` modulo 0xFFFF, never above `x`, and zero only for a zero sum. */
  function EndAroundCarry(x: nat): (r: uint16)
    ensures r % 0xFFFF == x % 0xFFFF
    ensures r <= x
    ensures r == 0 <==> x == 0
    decreases x
  {
    if x < 0x1_0000 then x
    else
      FoldStep(x);
      EndAroundCarry(Fold(x))
  }

  /** The Internet checksum of section 1 of RFC 1071: the 16-bit one's
      complement of the one's-complement sum of the words of `s`. */
  function InternetChecksum(s: seq<byte>): (r: uint16)
    ensures r == 0xFFFF <==> WordSum(s) == 0
  {
    0xFFFF - EndAroundCarry(WordSum(s))
  }

  // ---------------------------------------------------------------------
  // The source's loop
  // ---------------------------------------------------------------------

  /** `calculateChecksum`: sums the words of `data`, folds twice and returns
      the truncated complement. Whenever the word sum stays below
      FoldTwiceLimit (in particular for every buffer of at most 131076 bytes)
      this is the Internet checksum of RFC 1071. Go's `int` is taken to be
      64 bits wide, so `sum` never wraps. */
  method CalculateChecksum(data: array<byte>) returns (r: uint16)
    ensures r == FoldTwiceChecksum(data[..])
    ensures WordSum(data[..]) < FoldTwiceLimit ==> r == InternetChecksum(data[..])
  {
    var sum := 0;
    var i := 0;
    while i < data.Length - 1
      invariant 0 <= i <= data.Length
      invariant i % 2 == 0
      invariant sum + WordSum(data[i..]) == WordSum(data[..])
    {
      assert data[i..][2..] == data[i + 2..];
      // `int(data[i])<<8 | int(data[i+1])`, that is Word(data[i], data[i + 1])
      sum := sum + data[i] as int * 0x100 + data[i + 1] as int;
      i := i + 2;
    }
    if data.Length % 2 == 1 {
      sum := sum + data[data.Length - 1] as int * 0x100;
    } else {
      assert data[i..] == [];
    }
    ghost var total := WordSum(data[..]);
    assert sum == total;
    sum := sum / 0x1_0000 + sum % 0x1_0000;
    assert sum == Fold(total);
    sum := sum + sum / 0x1_0000;
    r := ToUint16(Not(sum));
    assert r == FoldTwice(total);
    if total < FoldTwiceLimit {
      AgreesBelowLimit(data[..]);
    }
  }

  // ---------------------------------------------------------------------
  // Properties
  // ---------------------------------------------------------------------

  /** Two folds plus the truncation to 16 bits drop exactly the carries the
      end-around-carry reduction adds back, as long as the sum is below
      FoldTwiceLimit. */
  lemma TwoFoldsSuffice(x: nat)
    requires x < FoldTwiceLimit
    ensures FoldTwice(x) == 0xFFFF - EndAroundCarry(x)
  {
    if Fold(x) < 0x1_0000 {
      OneFoldSuffices(x);
    } else {
      SecondFoldCarries(x);
    }
  }

  lemma OneFoldSuffices(x: nat)
    requires Fold(x) < 0x1_0000
    ensures FoldTwice(x) == 0xFFFF - EndAroundCarry(x)
  {
    OneFoldDrains(x);
    var once := Fold(x);
    SecondFoldIdle(once);
    TruncateNegative(Not(once), 1, 0xFFFF - once);
  }

  lemma SecondFoldIdle(once: nat)
    requires once < 0x1_0000
    ensures once + once / 0x1_0000 == once
  {
  }

  lemma OneFoldDrains(x: nat)
    requires Fold(x) < 0x1_0000
    ensures EndAroundCarry(x) == Fold(x)
  {
    if x < 0x1_0000 {
      assert x / 0x1_0000 == 0;
    }
  }

  lemma SecondFoldCarries(x: nat)
    requires x < FoldTwiceLimit && Fold(x) >= 0x1_0000
    ensures FoldTwice(x) == 0xFFFF - EndAroundCarry(x)
  {
    var once := Fold(x);
    assert once <= 0x1_FFFE by {
      if x / 0x1_0000 == 0x1_0000 {
        assert x % 0x1_0000 < 0xFFFF;
      }
    }
    assert once / 0x1_0000 == 1;
    var twice := once + 1;
    assert FoldTwice(x) == ToUint16(Not(twice));
    TruncateNegative(Not(twice), 2, 0x2_0000 - twice - 1);
    assert EndAroundCarry(x) == once - 0xFFFF by {
      assert x >= 0x1_0000;
      assert Fold(once) == once - 0xFFFF;
      assert EndAroundCarry(once) == once - 0xFFFF;
      assert EndAroundCarry(x) == EndAroundCarry(once);
    }
  }

  lemma TruncateNegative(m: int, k: int, r: int)
    requires 0 <= r < 0x1_0000 && m == r - 0x1_0000 * k
    ensures ToUint16(m) == r
  {
  }

  /** At FoldTwiceLimit the two fixed folds are not enough: the second fold
      still leaves a carry that the truncation drops. */
  lemma TwoFoldsFallShort()
    ensures FoldTwice(FoldTwiceLimit) == 0xFFFF
    ensures 0xFFFF - EndAroundCarry(FoldTwiceLimit) == 0xFFFE
  {
    assert Fold(0x1_0000_FFFF) == 0x1_FFFF;
    assert Fold(0x1_FFFF) == 0x1_0000;
    assert Fold(0x1_0000) == 1;
    assert EndAroundCarry(0x1_0000) == EndAroundCarry(1);
    assert EndAroundCarry(0x1_FFFF) == EndAroundCarry(0x1_0000);
    assert EndAroundCarry(0x1_0000_FFFF) == EndAroundCarry(0x1_FFFF);
  }

  /** The source's checksum is the RFC 1071 checksum whenever the word sum is
      below FoldTwiceLimit. */
  lemma AgreesBelowLimit(s: seq<byte>)
    requires WordSum(s) < FoldTwiceLimit
    ensures FoldTwiceChecksum(s) == InternetChecksum(s)
  {
    TwoFoldsSuffice(WordSum(s));
  }

  /** Every word is at most 0xFFFF, so the sum is bounded by the word count. */
  lemma {:induction false} WordSumBound(s: seq<byte>)
    ensures WordSum(s) <= 0xFFFF * ((|s| + 1) / 2)
  {
    if |s| >= 2 {
      WordSumBound(s[2..]);
      assert (|s[2..]| + 1) / 2 == (|s| + 1) / 2 - 1;
    }
  }

  /** For every buffer of at most 131076 bytes (65538 words, so every IPv4
      datagram and every 8-byte echo request) the source's checksum is the
      RFC 1071 checksum. */
  lemma AgreesOnShortBuffers(s: seq<byte>)
    requires |s| <= 131076
    ensures FoldTwiceChecksum(s) == InternetChecksum(s)
  {
    WordSumBound(s);
    var words := (|s| + 1) / 2;
    assert words <= 65538;
    assert 0xFFFF * words <= 0xFFFF * 65538;
    AgreesBelowLimit(s);
  }

  /** `k` words 0xFFFF. */
  function AllOnesWords(k: nat): (s: seq<byte>)
    ensures |s| == 2 * k
  {
    if k == 0 then [] else [0xFF, 0xFF] + AllOnesWords(k - 1)
  }

  lemma {:induction false} WordSumAllOnesWords(k: nat, t: seq<byte>)
    ensures WordSum(AllOnesWords(k) + t) == 0xFFFF * k + WordSum(t)
  {
    if k > 0 {
      var u := AllOnesWords(k) + t;
      assert u[0] == 0xFF && u[1] == 0xFF;
      assert u[2..] == AllOnesWords(k - 1) + t;
      assert WordSum(u) == 0xFFFF + WordSum(u[2..]);
      WordSumAllOnesWords(k - 1, t);
      assert WordSum(u) == 0xFFFF + 0xFFFF * (k - 1) + WordSum(t);
    } else {
      assert AllOnesWords(k) + t == t;
    }
  }

  /** A buffer of 131078 bytes (65538 words 0xFFFF, then the word 1), just
      past the length bound above, whose word sum is FoldTwiceLimit: its
      checksum as the source computes it is 0xFFFF, while RFC 1071 gives
      0xFFFE. */
  lemma LongBufferDisagrees()
    ensures var s := AllOnesWords(65538) + [0, 1];
      |s| == 131078 && FoldTwiceChecksum(s) == 0xFFFF && InternetChecksum(s) == 0xFFFE
  {
    var s := AllOnesWords(65538) + [0, 1];
    WordSumAllOnesWords(65538, [0, 1]);
    assert WordSum([0, 1]) == 1;
    assert WordSum(s) == FoldTwiceLimit;
    TwoFoldsFallShort();
  }

  /** Appending a zero byte never changes the word sum: for an odd length
      that byte is exactly the padding the source assumes, and for an even
      length it is a zero high byte. */
  lemma {:induction false} AppendZeroWordSum(s: seq<byte>)
    ensures WordSum(s + [0]) == WordSum(s)
  {
    if |s| >= 2 {
      assert (s + [0])[2..] == s[2..] + [0];
      AppendZeroWordSum(s[2..]);
    }
  }

  /** An odd-length buffer has the same checksum as the buffer with one zero
      byte appended. */
  lemma OddLengthPadding(s: seq<byte>)
    ensures FoldTwiceChecksum(s + [0]) == FoldTwiceChecksum(s)
    ensures InternetChecksum(s + [0]) == InternetChecksum(s)
  {
    AppendZeroWordSum(s);
  }

  /** The word sum is zero exactly when every byte is zero. */
  lemma WordSumZeroIff(s: seq<byte>)
    ensures WordSum(s) == 0 <==> forall i :: 0 <= i < |s| ==> s[i] == 0
  {
    if forall i :: 0 <= i < |s| ==> s[i] == 0 {
      ZeroBytesZeroSum(s);
    }
    if WordSum(s) == 0 {
      ZeroSumZeroBytes(s);
    }
  }

  lemma {:induction false} ZeroBytesZeroSum(s: seq<byte>)
    requires forall i :: 0 <= i < |s| ==> s[i] == 0
    ensures WordSum(s) == 0
  {
    if |s| >= 2 {
      ZeroBytesZeroSum(s[2..]);
    }
  }

  lemma {:induction false} ZeroSumZeroBytes(s: seq<byte>)
    requires WordSum(s) == 0
    ensures forall i :: 0 <= i < |s| ==> s[i] == 0
  {
    if |s| >= 2 {
      ZeroSumZeroBytes(s[2..]);
      forall i | 2 <= i < |s| ensures s[i] == 0 {
        assert s[i] == s[2..][i - 2];
      }
    }
  }

  /** An empty or all-zero buffer has checksum 0xFFFF: the sum stays 0 and
      the complement of 0 truncates to 0xFFFF. */
  lemma ZeroBufferChecksum(s: seq<byte>)
    requires forall i :: 0 <= i < |s| ==> s[i] == 0
    ensures FoldTwiceChecksum(s) == 0xFFFF
  {
    WordSumZeroIff(s);
  }

  /** Conversely, for buffers of at most 131076 bytes, 0xFFFF is the checksum
      of the all-zero buffers only (an all-0xFF buffer gives 0, the other
      representation of zero in one's complement). */
  lemma ChecksumFFFFIffZero(s: seq<byte>)
    requires |s| <= 131076
    ensures FoldTwiceChecksum(s) == 0xFFFF <==> forall i :: 0 <= i < |s| ==> s[i] == 0
  {
    WordSumZeroIff(s);
    AgreesOnShortBuffers(s);
  }

  /** Overwriting the word at an even offset changes the sum by the
      difference of the two words. */
  lemma {:induction false} WordSumUpdate(s: seq<byte>, p: nat, hi: byte, lo: byte)
    requires p % 2 == 0 && p + 1 < |s|
    ensures WordSum(s[p := hi][p + 1 := lo]) == WordSum(s) - Word(s[p], s[p + 1]) + Word(hi, lo)
  {
    var t := s[p := hi][p + 1 := lo];
    if p >= 2 {
      assert t[2..] == s[2..][p - 2 := hi][p - 1 := lo];
      WordSumUpdate(s[2..], p - 2, hi, lo);
    } else {
      assert t[2..] == s[2..];
    }
  }

  /** `s` with its checksum written big-endian into bytes `p` and `p + 1`,
      computed while they still hold the buffer's own values. */
  function Embed(s: seq<byte>, p: nat): (t: seq<byte>)
    requires p + 1 < |s|
    ensures |t| == |s|
    ensures forall i :: 0 <= i < |s| && i != p && i != p + 1 ==> t[i] == s[i]
    ensures Word(t[p], t[p + 1]) == InternetChecksum(s)
  {
    var c := InternetChecksum(s);
    s[p := c / 0x100][p + 1 := c % 0x100]
  }

  /** The verification rule of section 1 of RFC 1071: once the checksum of a
      buffer whose checksum field (at an even offset) is zero has been
      written into that field, the checksum of the whole buffer is 0. */
  lemma EmbeddedChecksumVerifies(s: seq<byte>, p: nat)
    requires p % 2 == 0 && p + 1 < |s|
    requires s[p] == 0 && s[p + 1] == 0
    ensures InternetChecksum(Embed(s, p)) == 0
  {
    var x := WordSum(s);
    var c := InternetChecksum(s);
    WordSumUpdate(s, p, c / 0x100, c % 0x100);
    var y := WordSum(Embed(s, p));
    assert y == x + 0xFFFF - EndAroundCarry(x);
    // x and its reduction are congruent, so y is a positive multiple of 0xFFFF.
    var e := EndAroundCarry(x);
    assert x == 0xFFFF * (x / 0xFFFF) + x % 0xFFFF;
    assert e == 0xFFFF * (e / 0xFFFF) + e % 0xFFFF;
    assert y == 0xFFFF * (x / 0xFFFF - e / 0xFFFF + 1);
    ModAddMultiple(0, x / 0xFFFF - e / 0xFFFF + 1);
    assert y % 0xFFFF == 0;
  }
}
