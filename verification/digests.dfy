/** The 32-byte digest and its reading as a big-endian number. */
module Digests {
  import opened Ints

  const DIGEST_LEN: nat := 32

  /** A SHA-256 output: exactly 32 bytes, most significant first. */
  type Digest = s: seq<u8> | |s| == DIGEST_LEN witness ZeroDigest()

  /** The all-zero digest, used as the predecessor hash of the first block. */
  function ZeroDigest(): seq<u8>
  {
    seq(DIGEST_LEN, _ => 0)
  }

  /** The bytes read as an unsigned big-endian number: the last byte is the least significant. */
  function BigEndian(s: seq<u8>): nat
  {
    if |s| == 0 then 0 else BigEndian(s[..|s| - 1]) * 256 + s[|s| - 1]
  }

  lemma {:induction false} BigEndianBound(s: seq<u8>)
    ensures BigEndian(s) < Pow2(8 * |s|)
  {
    if |s| > 0 {
      var init := s[..|s| - 1];
      BigEndianBound(init);
      Pow2Add(8 * |init|, 8);
      assert Pow2(8) == 256;
      assert BigEndian(s) <= (Pow2(8 * |init|) - 1) * 256 + 255;
    }
  }

  /** Splitting the bytes at any point splits the number into a high and a low part. */
  lemma {:induction false} BigEndianAppend(a: seq<u8>, b: seq<u8>)
    ensures BigEndian(a + b) == BigEndian(a) * Pow2(8 * |b|) + BigEndian(b)
  {
    if |b| > 0 {
      var init := b[..|b| - 1];
      assert (a + b)[..|a + b| - 1] == a + init;
      BigEndianAppend(a, init);
      Pow2Add(8 * |init|, 8);
      assert Pow2(8) == 256;
      assert BigEndian(a + b) == BigEndian(a + init) * 256 + b[|b| - 1];
      Regroup(BigEndian(a), Pow2(8 * |init|), BigEndian(init), b[|b| - 1]);
    } else {
      assert a + b == a;
    }
  }

  lemma Regroup(high: int, scale: int, low: int, last: int)
    ensures (high * scale + low) * 256 + last == high * (scale * 256) + (low * 256 + last)
  {
  }

  /** The number is zero exactly when every byte is zero. */
  lemma {:induction false} BigEndianZero(s: seq<u8>)
    ensures BigEndian(s) == 0 <==> forall i | 0 <= i < |s| :: s[i] == 0
  {
    if |s| > 0 {
      var init := s[..|s| - 1];
      BigEndianZero(init);
      assert forall i | 0 <= i < |init| :: init[i] == s[i];
    }
  }

  /** The low `r <= 8` bits of the number are the low `r` bits of its last byte. */
  lemma LowBitsOfLastByte(s: seq<u8>, r: nat)
    requires |s| > 0 && r <= 8
    ensures BigEndian(s) % Pow2(r) == s[|s| - 1] % Pow2(r)
  {
    LowBitsOfByteSum(BigEndian(s[..|s| - 1]), s[|s| - 1], r);
  }

  lemma LowBitsOfByteSum(high: nat, last: nat, r: nat)
    requires r <= 8
    ensures (high * 256 + last) % Pow2(r) == last % Pow2(r)
  {
    Pow2Add(8 - r, r);
    assert Pow2(8) == 256;
    ModOfByteSum(high, last, Pow2(r), Pow2(8 - r));
  }

  lemma ModOfByteSum(high: int, last: int, p: int, q: int)
    requires p > 0 && q * p == 256
    ensures (high * 256 + last) % p == last % p
  {
    assert high * 256 == (high * q) * p by {
      assert high * (q * p) == (high * q) * p;
    }
    ModAddMultiple(high * q, p, last);
  }

  /**
   * With `low < m`, the number `high * m + low` is a multiple of `m * k`
   * exactly when `low` is zero and `high` is a multiple of `k`.
   */
  lemma DivisibleSplit(high: nat, low: nat, m: nat, k: nat)
    requires m > 0 && k > 0 && low < m
    ensures (high * m + low) % (m * k) == 0 <==> low == 0 && high % k == 0
  {
    var x := high * m + low;
    if x % (m * k) == 0 {
      var q := x / (m * k);
      assert x == (q * k) * m + 0;
      DivModUnique(x, m, q * k, 0);
      DivModUnique(x, m, high, low);
      assert high == q * k;
      DivModUnique(high, k, q, 0);
    }
    if low == 0 && high % k == 0 {
      var q := high / k;
      assert x == q * (m * k) + 0;
      DivModUnique(x, m * k, q, 0);
    }
  }

  /**
   * The number has `8 * k + r` trailing zero bits (`r < 8`) exactly when its
   * last `k` bytes are zero and the number formed by the other bytes has `r`
   * trailing zero bits.
   */
  lemma TrailingBitsSplit(s: seq<u8>, k: nat, r: nat)
    requires k <= |s|
    ensures var n := |s| - k;
            BigEndian(s) % Pow2(8 * k + r) == 0 <==> BigEndian(s[n..]) == 0 && BigEndian(s[..n]) % Pow2(r) == 0
  {
    var n := |s| - k;
    var high, low := s[..n], s[n..];
    var H, L, M, K := BigEndian(high), BigEndian(low), Pow2(8 * k), Pow2(r);
    assert BigEndian(s) == H * M + L by {
      assert s == high + low;
      BigEndianAppend(high, low);
    }
    assert L < M by {
      BigEndianBound(low);
    }
    assert Pow2(8 * k + r) == M * K by {
      Pow2Add(8 * k, r);
    }
    DivisibleSplit(H, L, M, K);
  }

  /** The bytes from position `n` on read as zero exactly when each of them is zero. */
  lemma TrailingBytesZero(s: seq<u8>, n: nat)
    requires n <= |s|
    ensures BigEndian(s[n..]) == 0 <==> forall i | n <= i < |s| :: s[i] == 0
  {
    BigEndianZero(s[n..]);
    assert forall i | n <= i < |s| :: s[i] == s[n..][i - n];
  }

  /** The bytes from position `i` to the end are all zero. */
  predicate ZeroFrom(s: seq<u8>, i: nat)
    decreases |s| - i
  {
    i >= |s| || (s[i] == 0 && ZeroFrom(s, i + 1))
  }

  lemma {:induction false} ZeroFromIff(s: seq<u8>, i: nat)
    ensures ZeroFrom(s, i) <==> forall j | i <= j < |s| :: s[j] == 0
    decreases |s| - i
  {
    if i < |s| {
      ZeroFromIff(s, i + 1);
    }
  }
}
