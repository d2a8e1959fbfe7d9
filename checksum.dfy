/**
 * The Internet checksum of icmp.c (section 1 of RFC 1071): the 16-bit one's
 * complement of the one's complement sum of the buffer's big-endian 16-bit
 * words, an odd trailing byte counting as the high byte of a word whose low
 * byte is zero.
 *
 * `Checksum` states what the C function computes, including its 32-bit
 * accumulator; `OnesSum` is the reference one's complement sum, and
 * `ChecksumIsOnesComplement` connects the two for every buffer short enough
 * that the accumulator cannot wrap.
 */
module InternetChecksum {
  import opened Wire

  /**
   * The longest buffer whose word sum always fits in the 32-bit accumulator:
   * 65537 words of at most 0xFFFF add up to at most 2^32 - 1.
   */
  const MaxUnwrappedLen: nat := 131074

  /**
   * The plain (unbounded) sum of the buffer's big-endian 16-bit words; an odd
   * trailing byte is the high byte of a word whose low byte is 0. Defined from
   * the back so that it follows the left-to-right accumulation of the loop.
   */
  function WordSum(data: seq<Byte>): nat
  {
    if |data| == 0 then 0
    else if |data| % 2 == 1 then WordSum(data[..|data| - 1]) + (data[|data| - 1] as int) * 0x100
    else WordSum(data[..|data| - 2]) + Read16(data[|data| - 2], data[|data| - 1])
  }

  /**
   * The end of checksum(): two end-around carries folding the 32-bit
   * accumulator into 16 bits, then the bitwise complement truncated to
   * uint16_t (for a value below 2^16, ~b & 0xFFFF is 0xFFFF - b).
   */
  function FoldComplement(csum: nat): (c: U16)
    requires csum < 0x1_0000_0000
  {
    var a := csum / 0x1_0000 + csum % 0x1_0000;
    var b := a + a / 0x1_0000;
    0xFFFF - b % 0x1_0000
  }

  /** checksum(data, len) as icmp.c computes it: the accumulator wraps modulo 2^32. */
  function Checksum(data: seq<Byte>): (c: U16)
  {
    FoldComplement(WordSum(data) % 0x1_0000_0000)
  }

  /**
   * The one's complement sum of 16-bit words whose plain sum is `s`, as a
   * 16-bit value: 0 only for an all-zero sum, otherwise the representative of
   * `s` modulo 0xFFFF in 1..0xFFFF (end-around carry never yields +0 again).
   */
  function OnesSum(s: nat): (r: U16)
  {
    if s == 0 then 0 else (s - 1) % 0xFFFF + 1
  }

  /** The remainder of `x` by 0xFFFF is `r` whenever `x` splits as q * 0xFFFF + r. */
  lemma ModOfSplit(x: int, q: int, r: int)
    requires 0 <= r < 0xFFFF && x == q * 0xFFFF + r
    ensures x % 0xFFFF == r
  {
  }

  /** The two end-around carries compute the one's complement sum of an unwrapped accumulator. */
  lemma FoldIsOnesSum(s: nat)
    requires s < 0x1_0000_0000
    ensures FoldComplement(s) == 0xFFFF - OnesSum(s)
  {
    var h, l := s / 0x1_0000, s % 0x1_0000;
    var a := h + l;
    assert s == h * 0xFFFF + a;
    assert h <= 0xFFFF && l <= 0xFFFF;
    if s == 0 {
    } else if a < 0x1_0000 {
      assert a >= 1;
      ModOfSplit(s - 1, h, a - 1);
    } else {
      ModOfSplit(s - 1, h + 1, a - 0x1_0000);
    }
  }

  /** No buffer of at most MaxUnwrappedLen bytes can make the 32-bit accumulator wrap. */
  lemma WordSumFits(data: seq<Byte>)
    requires |data| <= MaxUnwrappedLen
    ensures WordSum(data) < 0x1_0000_0000
  {
    WordSumBound(data);
    assert (|data| + 1) / 2 <= 65537;
  }

  /** Each word is at most 0xFFFF, and a buffer of n bytes has (n + 1) / 2 words. */
  lemma {:induction false} WordSumBound(data: seq<Byte>)
    ensures WordSum(data) <= 0xFFFF * ((|data| + 1) / 2)
  {
    if |data| == 0 {
    } else if |data| % 2 == 1 {
      WordSumBound(data[..|data| - 1]);
    } else {
      WordSumBound(data[..|data| - 2]);
    }
  }

  /**
   * For every buffer the accumulator cannot overflow on, checksum() is the
   * one's complement of the one's complement sum of its words (RFC 1071).
   */
  lemma ChecksumIsOnesComplement(data: seq<Byte>)
    requires |data| <= MaxUnwrappedLen
    ensures Checksum(data) == 0xFFFF - OnesSum(WordSum(data))
  {
    var s := WordSum(data);
    WordSumFits(data);
    assert s % 0x1_0000_0000 == s;
    FoldIsOnesSum(s);
  }

  /** Words of a buffer that starts at an even offset add independently of what precedes them. */
  lemma {:induction false} WordSumAppend(a: seq<Byte>, b: seq<Byte>)
    requires |a| % 2 == 0
    ensures WordSum(a + b) == WordSum(a) + WordSum(b)
  {
    var ab := a + b;
    var n := |ab|;
    if |b| == 0 {
      assert ab == a;
    } else if |b| % 2 == 1 {
      assert n % 2 == 1;
      var b' := b[..|b| - 1];
      assert ab[..n - 1] == a + b';
      WordSumAppend(a, b');
    } else {
      assert n % 2 == 0 && n >= 2;
      var b' := b[..|b| - 2];
      assert ab[..n - 2] == a + b';
      WordSumAppend(a, b');
    }
  }

  /** The odd-length rule: an odd buffer sums like the same buffer padded with one zero byte. */
  lemma OddLengthPadsWithZero(data: seq<Byte>)
    requires |data| % 2 == 1
    ensures WordSum(data + [0]) == WordSum(data)
    ensures Checksum(data + [0]) == Checksum(data)
  {
    var padded := data + [0];
    assert padded[..|padded| - 2] == data[..|data| - 1];
  }

  /**
   * A buffer whose checksum field holds the complement of the one's complement
   * sum computed with that field at zero sums to one's complement -0, so its
   * checksum is 0: the self-inclusion technique of RFC 1071.
   */
  lemma ComplementCancels(s: nat)
    requires s < 0x1_0000_0000
    ensures OnesSum(s + (0xFFFF - OnesSum(s))) == 0xFFFF
  {
    var t := s + (0xFFFF - OnesSum(s));
    if s == 0 {
      assert t == 0xFFFF;
      ModOfSplit(t - 1, 0, 0xFFFE);
    } else {
      var q, r := (s - 1) / 0xFFFF, (s - 1) % 0xFFFF;
      assert t - 1 == q * 0xFFFF + 0xFFFE;
      ModOfSplit(t - 1, q, 0xFFFE);
    }
  }

  /**
   * A wrapped accumulator plus the complement of its one's complement sum
   * still fits in 32 bits: 2^32 - 1 is 0xFFFF * 65537, so the self-inclusion
   * rule needs no bound on the buffer's length.
   */
  lemma ComplementFits(w: nat)
    requires w < 0x1_0000_0000
    ensures w + (0xFFFF - OnesSum(w)) < 0x1_0000_0000
  {
    if w > 0 {
      var q, r := (w - 1) / 0xFFFF, (w - 1) % 0xFFFF;
      assert w - 1 == q * 0xFFFF + r;
      assert q <= 65536;
      assert w + (0xFFFF - OnesSum(w)) == (q + 1) * 0xFFFF;
    }
  }

  /**
   * The self-inclusion rule through the 32-bit accumulator: when the words of
   * a buffer sum to `s`, adding its checksum as one more word makes the
   * checksum 0, however often the accumulator wraps.
   */
  lemma SelfInclusion(s: nat)
    ensures var c := FoldComplement(s % 0x1_0000_0000);
      FoldComplement((s + c) % 0x1_0000_0000) == 0
  {
    var w := s % 0x1_0000_0000;
    var c := FoldComplement(w);
    FoldIsOnesSum(w);
    ModAddLeft(s, c);
    ComplementFits(w);
    assert (s + c) % 0x1_0000_0000 == w + c;
    FoldIsOnesSum(w + c);
    ComplementCancels(w);
  }

  /**
   * Changing byte j by v - data[j] moves the word sum by that difference,
   * scaled by 0x100 when the byte is the high byte of its word.
   */
  lemma WordSumUpdate(data: seq<Byte>, j: nat, v: Byte)
    requires j < |data|
    ensures WordSum(data[j := v]) == WordSum(data) + (v - data[j]) * (if j % 2 == 0 then 0x100 else 1)
  {
    var k := j - j % 2;
    assert k % 2 == 0 && j - k == j % 2;
    var pre, tail := data[..k], data[k..];
    var tail' := tail[j - k := v];
    assert data == pre + tail;
    assert data[j := v] == pre + tail';
    WordSumAppend(pre, tail);
    WordSumAppend(pre, tail');
    WordSumUpdateFront(tail, j - k, v);
  }

  /** WordSumUpdate for a byte of the first word. */
  lemma WordSumUpdateFront(tail: seq<Byte>, i: nat, v: Byte)
    requires i < 2 && i < |tail|
    ensures WordSum(tail[i := v]) == WordSum(tail) + (v - tail[i]) * (if i == 0 then 0x100 else 1)
  {
    var tail' := tail[i := v];
    if |tail| >= 2 {
      assert tail == tail[..2] + tail[2..];
      assert tail' == tail'[..2] + tail[2..];
      WordSumAppend(tail[..2], tail[2..]);
      WordSumAppend(tail'[..2], tail[2..]);
      assert tail[..2][..0] == tail'[..2][..0] == [];
    } else {
      assert tail[..0] == tail'[..0] == [];
    }
  }

  /**
   * A word sum whose one's complement sum is -0 (checksum 0) stops being one
   * when it moves by a nonzero amount smaller than 0xFFFF either way.
   */
  lemma ShiftedSumIsNotNegativeZero(s: nat, delta: int)
    requires OnesSum(s) == 0xFFFF
    requires 0 < delta < 0xFFFF || -0xFFFF < delta < 0
    requires s + delta >= 0
    ensures OnesSum(s + delta) != 0xFFFF
  {
  }

  /**
   * Error detection: in a buffer whose checksum is 0, changing any one byte,
   * in particular flipping any one of its bits, makes the checksum nonzero
   * (for buffers short enough that the 32-bit accumulator cannot wrap).
   */
  lemma ChecksumDetectsByteChange(data: seq<Byte>, j: nat, v: Byte)
    requires |data| <= MaxUnwrappedLen && j < |data|
    requires Checksum(data) == 0
    requires v != data[j]
    ensures Checksum(data[j := v]) != 0
  {
    var changed := data[j := v];
    var delta := (v - data[j]) * (if j % 2 == 0 then 0x100 else 1);
    WordSumUpdate(data, j, v);
    ChecksumIsOnesComplement(data);
    ChecksumIsOnesComplement(changed);
    assert -0xFFFF < delta < 0xFFFF && delta != 0;
    ShiftedSumIsNotNegativeZero(WordSum(data), delta);
  }

  /** Adding to a value already reduced modulo 2^32 wraps like adding to the original. */
  lemma ModAddLeft(x: nat, w: nat)
    ensures (x % 0x1_0000_0000 + w) % 0x1_0000_0000 == (x + w) % 0x1_0000_0000
  {
    var q := x / 0x1_0000_0000;
    assert x == q * 0x1_0000_0000 + x % 0x1_0000_0000;
  }

  /**
   * One step of the accumulation loop: the word at even offset i is s[i] << 8,
   * or-ed with s[i + 1] when that byte exists.
   */
  lemma WordSumStep(s: seq<Byte>, i: nat)
    requires i % 2 == 0 && i < |s|
    ensures var next := if i + 1 < |s| then i + 2 else |s|;
      WordSum(s[..next]) == WordSum(s[..i]) + (s[i] as int) * 0x100 + (if i + 1 < |s| then s[i + 1] else 0)
  {
    if i + 1 < |s| {
      var p := s[..i + 2];
      assert |p| % 2 == 0 && p[..|p| - 2] == s[..i];
    } else {
      var p := s[..|s|];
      assert |p| % 2 == 1 && p[..|p| - 1] == s[..i];
    }
  }

  /** The loop step in the 32-bit accumulator: adding the next word keeps it the wrapped sum of the words so far. */
  lemma AccumulateStep(s: seq<Byte>, i: nat, csum: nat, w: nat)
    requires i % 2 == 0 && i < |s|
    requires csum == WordSum(s[..i]) % 0x1_0000_0000
    requires w == (s[i] as int) * 0x100 + (if i + 1 < |s| then s[i + 1] else 0)
    ensures (csum + w) % 0x1_0000_0000 == WordSum(s[..if i + 1 < |s| then i + 2 else |s|]) % 0x1_0000_0000
  {
    WordSumStep(s, i);
    ModAddLeft(WordSum(s[..i]), w);
  }

  /** checksum(data + off, len): the accumulation loop of icmp.c over len bytes starting at off. */
  method ChecksumOf(data: array<Byte>, off: nat, len: nat) returns (c: U16)
    requires off + len <= data.Length
    ensures c == Checksum(data[off..off + len])
  {
    ghost var s := data[off..off + len];
    var csum := 0;
    var i := 0;
    // `words` counts the loop steps, so i stays even
    ghost var words := 0;
    // `summed` is how many bytes the accumulator holds: i, or len after an odd last byte
    ghost var summed := 0;
    assert s[..0] == [];
    while i < len
      invariant i == 2 * words && summed <= len
      invariant summed == i || (summed == len && i == len + 1)
      invariant 0 <= csum < 0x1_0000_0000
      invariant csum == WordSum(s[..summed]) % 0x1_0000_0000
    {
      // data[i] << 8, then | data[i + 1]: the two bytes occupy disjoint bits
      var w := (data[off + i] as int) * 0x100;
      if i + 1 < len {
        w := w + data[off + i + 1];
      }
      AccumulateStep(s, i, csum, w);
      csum := (csum + w) % 0x1_0000_0000;
      summed := if i + 1 < len then i + 2 else len;
      i := i + 2;
      words := words + 1;
    }
    assert summed == len && s[..len] == s;
    ghost var total := csum;
    // the two end-around carries, then (uint16_t)~csum
    csum := csum / 0x1_0000 + csum % 0x1_0000;
    csum := csum + csum / 0x1_0000;
    c := 0xFFFF - csum % 0x1_0000;
    assert c == FoldComplement(total);
  }
}
