/** The Internet checksum of RFC 1071 (sections 1 and 4.1): the 16-bit
    one's complement of the one's-complement sum of the input read as
    big-endian 16-bit words, an odd trailing octet padded with zero. */
module InternetChecksum {
  import opened Bytes

  /** The plain (unbounded) sum of the big-endian 16-bit words of `s`; a
      trailing odd octet counts as the high half of a word whose low half
      is zero. Each of the (|s| + 1) / 2 words adds at most 0xFFFF. */
  function WordSum(s: seq<byte>): (n: nat)
    ensures n <= 0xFFFF * ((|s| + 1) / 2)
  {
    if |s| == 0 then 0
    else if |s| == 1 then Word(s[0], 0)
    else Word(s[0], s[1]) + WordSum(s[2..])
  }

  /** Folds the carries above bit 15 back into the low 16 bits until none
      remain: `while (sum >> 16) sum = (sum & 0xffff) + (sum >> 16)`.
      The result is the one's-complement sum: it fits in 16 bits, is
      congruent to `x` modulo 0xFFFF, and is zero only for a zero sum. */
  function Fold(x: nat): (r: u16)
    ensures r % 0xFFFF == x % 0xFFFF
    ensures r == 0 <==> x == 0
    decreases x
  {
    if x < 0x1_0000 then x
    else
      var hi, lo := x / 0x1_0000, x % 0x1_0000;
      assert x == hi * 0xFFFF + (lo + hi);
      Fold(lo + hi)
  }

  /** `internet_checksum::checksum`: the complement of the folded sum,
      as two octets in network byte order. */
  function Checksum(s: seq<byte>): (r: seq<byte>)
    ensures |r| == 2
  {
    ToBeBytes(0xFFFF - Fold(WordSum(s)))
  }

  /** `s` with the two octets at `k` replaced by zero: the message as it is
      checksummed, with its checksum field still blank. */
  function ZeroField(s: seq<byte>, k: nat): (z: seq<byte>)
    requires k + 2 <= |s|
    ensures |z| == |s| && z[k] == 0 && z[k + 1] == 0
    ensures forall i :: 0 <= i < |s| && i != k && i != k + 1 ==> z[i] == s[i]
  {
    s[..k] + [0, 0] + s[k + 2..]
  }

  /** Word sums add up over a split at an even offset. */
  lemma {:induction false} WordSumAppend(x: seq<byte>, y: seq<byte>)
    requires |x| % 2 == 0
    ensures WordSum(x + y) == WordSum(x) + WordSum(y)
  {
    if |x| == 0 {
      assert x + y == y;
    } else {
      assert (x + y)[2..] == x[2..] + y;
      WordSumAppend(x[2..], y);
    }
  }

  /** A leading pair of octets contributes its 16-bit word to the sum. */
  lemma WordSumPair(m: seq<byte>, t: seq<byte>)
    requires |m| == 2
    ensures WordSum(m + t) == Word(m[0], m[1]) + WordSum(t)
  {
    assert (m + t)[2..] == t;
  }

  /** A 16-bit field at an even offset adds exactly its word to the sum:
      the sum with the field filled in is the sum with it zeroed plus the
      field's value. */
  lemma WordSumField(p: seq<byte>, m: seq<byte>, t: seq<byte>)
    requires |p| % 2 == 0 && |m| == 2
    ensures WordSum(p + m + t) == WordSum(p + [0, 0] + t) + Word(m[0], m[1])
  {
    assert p + m + t == p + (m + t);
    assert p + [0, 0] + t == p + ([0, 0] + t);
    WordSumAppend(p, m + t);
    WordSumAppend(p, [0, 0] + t);
    WordSumPair(m, t);
    WordSumPair([0, 0], t);
  }

  /** Two sums congruent modulo 0xFFFF: the first plus the complement of
      the second is a multiple of 0xFFFF. */
  lemma ComplementCancels(a: nat, b: nat)
    requires b <= 0xFFFF && a % 0xFFFF == b % 0xFFFF
    ensures (a + (0xFFFF - b)) % 0xFFFF == 0
  {
    var qa, qb := a / 0xFFFF, b / 0xFFFF;
    assert a == qa * 0xFFFF + a % 0xFFFF;
    assert b == qb * 0xFFFF + b % 0xFFFF;
    assert a + (0xFFFF - b) == (qa - qb + 1) * 0xFFFF;
  }

  /** Adding the complement of a folded sum to the sum itself folds to
      0xFFFF, the one's-complement "negative zero". */
  lemma FoldComplement(s0: nat)
    ensures Fold(s0 + (0xFFFF - Fold(s0))) == 0xFFFF
  {
    var f := Fold(s0);
    ComplementCancels(s0, f);
    var total := s0 + (0xFFFF - f);
    assert total > 0 by {
      if s0 == 0 { assert f == 0; }
    }
    var g := Fold(total);
    assert g % 0xFFFF == 0 && 0 < g <= 0xFFFF;
  }

  /** A message split around its 16-bit field at `k`. */
  lemma SplitAtField(s: seq<byte>, k: nat)
    requires k + 2 <= |s|
    ensures s == s[..k] + s[k..k + 2] + s[k + 2..]
    ensures ZeroField(s, k) == s[..k] + [0, 0] + s[k + 2..]
  {
    assert s == s[..k] + s[k..];
    assert s[k..] == s[k..k + 2] + s[k + 2..];
  }

  /** A message with a filled 16-bit field at even offset `k` sums to the
      message with that field zeroed plus the field's value. */
  lemma WordSumZeroField(s: seq<byte>, k: nat)
    requires k % 2 == 0 && k + 2 <= |s|
    ensures WordSum(s) == WordSum(ZeroField(s, k)) + Word(s[k], s[k + 1])
  {
    SplitAtField(s, k);
    WordSumField(s[..k], s[k..k + 2], s[k + 2..]);
  }

  /** The verification rule of RFC 1071 section 1: when the checksum of a
      message with its (even-aligned) checksum field zeroed is stored in
      that field, the checksum of the finished message is zero. */
  lemma ChecksumSelfVerifies(s: seq<byte>, k: nat)
    requires k % 2 == 0 && k + 2 <= |s|
    requires s[k..k + 2] == Checksum(ZeroField(s, k))
    ensures Checksum(s) == [0, 0]
  {
    var s0 := WordSum(ZeroField(s, k));
    WordSumZeroField(s, k);
    assert Word(s[k], s[k + 1]) == 0xFFFF - Fold(s0) by {
      assert [s[k], s[k + 1]] == ToBeBytes(0xFFFF - Fold(s0));
    }
    FoldComplement(s0);
    assert Fold(WordSum(s)) == 0xFFFF;
  }

  /** An odd trailing octet is treated as though a zero octet followed it. */
  lemma {:induction false} ChecksumPadsOddOctet(s: seq<byte>, b: byte)
    requires |s| % 2 == 0
    ensures Checksum(s + [b]) == Checksum(s + [b, 0])
  {
    WordSumAppend(s, [b]);
    WordSumAppend(s, [b, 0]);
    assert [b, 0][2..] == [];
  }

  /** The checksum of an all-zero message is 0xFFFF, the complement of
      zero. */
  lemma {:induction false} ChecksumOfZeros(n: nat)
    ensures Checksum(seq(n, _ => 0)) == [0xFF, 0xFF]
  {
    ZeroSum(n);
  }

  /** All-zero words add up to zero. */
  lemma {:induction false} ZeroSum(n: nat)
    ensures WordSum(seq(n, _ => 0)) == 0
  {
    if n >= 2 {
      assert seq(n, _ => 0)[2..] == seq(n - 2, _ => 0);
      ZeroSum(n - 2);
    }
  }
}
