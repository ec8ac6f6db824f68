/** math_utils::in_cksum: the Internet checksum of RFC 1071 over `len` bytes. */
module Checksum {
  import opened Base

  /** The 16-bit word at word index `k`, read little-endian as the RISC-V target does. */
  function Word(b: seq<byte>, k: nat): (w: nat)
    requires 2 * k + 1 < |b|
    ensures w < 0x1_0000
  {
    b[2 * k] as int + 256 * b[2 * k + 1] as int
  }

  /** The sum of the first `k` words. */
  function WordSum(b: seq<byte>, k: nat): nat
    requires 2 * k <= |b|
  {
    if k == 0 then 0 else WordSum(b, k - 1) + Word(b, k - 1)
  }

  /** The sum in_cksum accumulates before folding, in unbounded arithmetic: every full
      word, and an odd trailing byte zero-extended. */
  function Total(b: seq<byte>): nat {
    WordSum(b, |b| / 2) + (if |b| % 2 == 1 then b[|b| - 1] else 0)
  }

  /** The one's-complement sum of section 1 of RFC 1071: carries out of bit 15 folded back
      in until none is left. */
  function FullFold(s: nat): (r: nat)
    ensures r < 0x1_0000
    decreases s
  {
    if s < 0x1_0000 then s
    else
      FoldShrinks(s);
      FullFold(s % 0x1_0000 + s / 0x1_0000)
  }

  lemma FoldShrinks(s: nat)
    requires s >= 0x1_0000
    ensures s % 0x1_0000 + s / 0x1_0000 < s
  {
    var q, r := s / 0x1_0000, s % 0x1_0000;
    assert s == q * 0x1_0000 + r;
    assert q >= 1;
  }

  /** The checksum due for the first `len` bytes (none when `len` is not positive): the
      16-bit one's complement of the one's-complement sum, where the sum is accumulated
      in a 32-bit register. */
  function Checksum(b: seq<byte>, len: int): (r: nat)
    requires len <= |b|
    ensures r < 0x1_0000
  {
    var n := if len < 0 then 0 else len;
    0xffff - FullFold(Total(b[..n]) % 0x1_0000_0000)
  }

  /** `in_cksum(addr, len)`: sums 16-bit words while more than one byte is left, adds an
      odd trailing byte, folds the carries twice and complements. */
  method InCksum(addr: array<byte>, len: int) returns (answer: nat)
    requires len <= addr.Length
    ensures answer == Checksum(addr[..], len)
  {
    ghost var n: nat := if len < 0 then 0 else len;
    ghost var b := addr[..n];
    var nleft := len;
    var w := 0;
    var sum := 0;
    while nleft > 1
      invariant 0 <= 2 * w <= n && nleft == len - 2 * w
      invariant sum == WordSum(b, w) % 0x1_0000_0000
    {
      assert Word(b, w) == addr[2 * w] as int + 256 * addr[2 * w + 1] as int;
      AddMod(WordSum(b, w), Word(b, w));
      sum := (sum + (addr[2 * w] as int + 256 * addr[2 * w + 1] as int)) % 0x1_0000_0000;
      w := w + 1;
      nleft := nleft - 2;
    }
    assert |b| / 2 == w && (|b| % 2 == 1 <==> nleft == 1);
    if nleft == 1 {
      assert b[|b| - 1] == addr[2 * w];
      AddMod(WordSum(b, w), addr[2 * w]);
      sum := (sum + addr[2 * w]) % 0x1_0000_0000;
    }
    assert sum == Total(b) % 0x1_0000_0000;
    var s1 := sum % 0x1_0000 + sum / 0x1_0000;
    var s2 := s1 + s1 / 0x1_0000;
    Complemented(sum);
    answer := (0xffff_ffff - s2) % 0x1_0000;
    assert addr[..][..n] == b;
  }

  /** Reducing the running sum modulo 2^32 before an addition changes nothing. */
  lemma AddMod(a: nat, b: nat)
    ensures (a % 0x1_0000_0000 + b) % 0x1_0000_0000 == (a + b) % 0x1_0000_0000
  {
  }

  /** Two folds leave, in the low 16 bits, the fully folded sum of any 32-bit value. */
  lemma TwoFolds(s: nat)
    requires s < 0x1_0000_0000
    ensures var s1 := s % 0x1_0000 + s / 0x1_0000;
      s1 + s1 / 0x1_0000 < 0x1_0000_0000 && (s1 + s1 / 0x1_0000) % 0x1_0000 == FullFold(s)
  {
    var q, r := s / 0x1_0000, s % 0x1_0000;
    assert s == q * 0x1_0000 + r && r < 0x1_0000;
    assert q < 0x1_0000;
    var s1 := q + r;
    if s >= 0x1_0000 {
      assert FullFold(s) == FullFold(s1);
      if s1 >= 0x1_0000 {
        assert s1 / 0x1_0000 == 1 && s1 % 0x1_0000 == s1 - 0x1_0000;
        assert FullFold(s1) == FullFold(s1 - 0x1_0000 + 1);
      }
    }
  }

  /** The folding and complementing of in_cksum give the complement of the
      one's-complement sum. */
  lemma Complemented(sum: nat)
    requires sum < 0x1_0000_0000
    ensures var s1 := sum % 0x1_0000 + sum / 0x1_0000;
      var s2 := s1 + s1 / 0x1_0000;
      (0xffff_ffff - s2) % 0x1_0000 == 0xffff - FullFold(sum)
  {
    var s1 := sum % 0x1_0000 + sum / 0x1_0000;
    TwoFolds(sum);
    NotLow16(s1 + s1 / 0x1_0000);
  }

  /** The low 16 bits of the 32-bit complement `~x`. */
  lemma NotLow16(x: nat)
    requires x < 0x1_0000_0000
    ensures (0xffff_ffff - x) % 0x1_0000 == 0xffff - x % 0x1_0000
  {
    var q, r := x / 0x1_0000, x % 0x1_0000;
    assert x == q * 0x1_0000 + r;
    assert 0xffff_ffff - x == (0xffff - q) * 0x1_0000 + (0xffff - r);
  }

  /** Folding a carry keeps the value modulo 0xffff, the one's-complement congruence. */
  lemma {:induction false} FoldCongruent(s: nat)
    ensures FullFold(s) % 0xffff == s % 0xffff
    decreases s
  {
    if s >= 0x1_0000 {
      var q, r := s / 0x1_0000, s % 0x1_0000;
      var y := q + r;
      var k, t := y / 0xffff, y % 0xffff;
      assert s == (q + k) * 0xffff + t;
      assert s % 0xffff == t;
      FoldShrinks(s);
      FoldCongruent(y);
    }
  }

  /** Only a zero sum folds to zero, so the checksum is 0xffff exactly for an all-zero sum. */
  lemma {:induction false} FoldZero(s: nat)
    ensures FullFold(s) == 0 <==> s == 0
    decreases s
  {
    if s >= 0x1_0000 {
      FoldShrinks(s);
      FoldZero(s % 0x1_0000 + s / 0x1_0000);
    }
  }

  /** No bytes at all, or a non-positive `len`, give 0xffff. */
  lemma EmptyChecksum(b: seq<byte>, len: int)
    requires len <= 0 && len <= |b|
    ensures Checksum(b, len) == 0xffff
  {
    assert b[..0] == [];
  }

  /** Two more bytes after an even prefix add one little-endian word. */
  lemma TotalWord(b: seq<byte>, x: byte, y: byte)
    requires |b| % 2 == 0
    ensures Total(b + [x, y]) == Total(b) + x + 256 * y
  {
    var c := b + [x, y];
    assert c[..|b|] == b;
    assert Word(c, |b| / 2) == x + 256 * y;
    WordSumPrefix(c, b, |b| / 2);
  }

  /** An odd trailing byte after an even prefix is added zero-extended. */
  lemma TotalOddByte(b: seq<byte>, x: byte)
    requires |b| % 2 == 0
    ensures Total(b + [x]) == Total(b) + x
  {
    var c := b + [x];
    WordSumPrefix(c, b, |b| / 2);
  }

  /** Word sums only look at the bytes they cover. */
  lemma {:induction false} WordSumPrefix(c: seq<byte>, b: seq<byte>, k: nat)
    requires 2 * k <= |b| <= |c| && c[..|b|] == b
    ensures WordSum(c, k) == WordSum(b, k)
  {
    if k > 0 {
      assert c[2 * (k - 1)] == b[2 * (k - 1)] && c[2 * (k - 1) + 1] == b[2 * (k - 1) + 1];
      WordSumPrefix(c, b, k - 1);
    }
  }

  /** Up to 2^17 bytes the 32-bit accumulator cannot wrap, so the checksum is the
      complement of the exact one's-complement sum. */
  lemma NoWrap(b: seq<byte>)
    requires |b| <= 0x2_0000
    ensures Total(b) < 0x1_0000_0000
    ensures Checksum(b, |b|) == 0xffff - FullFold(Total(b))
  {
    WordSumBound(b, |b| / 2);
    assert b[..|b|] == b;
  }

  lemma {:induction false} WordSumBound(b: seq<byte>, k: nat)
    requires 2 * k <= |b|
    ensures WordSum(b, k) <= k * 0xffff
  {
    if k > 0 {
      WordSumBound(b, k - 1);
    }
  }
}
