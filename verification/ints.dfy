/** Fixed-width integer types of the block model and a small Option type. */
module Ints {

  /** One more than the largest `u64`. */
  const U64_LIMIT: int := 0x1_0000_0000_0000_0000
  const U64_MAX: int := U64_LIMIT - 1

  type u8 = x: int | 0 <= x < 0x100
  type u64 = x: int | 0 <= x < 0x1_0000_0000_0000_0000

  /** 2 to the power `n`; `1 << n` for shifts that do not overflow. */
  function Pow2(n: nat): (r: nat)
    ensures r >= 1
  {
    if n == 0 then 1 else 2 * Pow2(n - 1)
  }

  lemma {:induction false} Pow2Add(a: nat, b: nat)
    ensures Pow2(a + b) == Pow2(a) * Pow2(b)
  {
    if b > 0 {
      Pow2Add(a, b - 1);
      assert Pow2(a + b) == 2 * Pow2(a + b - 1);
    }
  }

  lemma {:induction false} Pow2Monotone(a: nat, b: nat)
    requires a <= b
    ensures Pow2(a) <= Pow2(b)
  {
    if a < b {
      Pow2Monotone(a, b - 1);
    }
  }

  /** `1 << 60`, the largest shift `mine_for_proof` can multiply by 8 within a `u64`. */
  lemma Pow2Sixty()
    ensures Pow2(60) == 0x1000_0000_0000_0000
  {
    assert Pow2(15) == 0x8000;
    Pow2Add(15, 15);
    assert Pow2(30) == 0x4000_0000;
    Pow2Add(30, 30);
  }

  /** The quotient and remainder of Euclidean division are unique. */
  lemma DivModUnique(a: int, m: int, q: int, r: int)
    requires m > 0 && 0 <= r < m && a == q * m + r
    ensures a / m == q && a % m == r
  {
    var q0, r0 := a / m, a % m;
    var d := q0 - q;
    assert d * m == r - r0 by {
      assert q0 * m + r0 == q * m + r;
      assert d * m == q0 * m - q * m;
    }
  }

  /** Adding a multiple of `m` does not change the remainder modulo `m`. */
  lemma ModAddMultiple(q: int, m: int, x: int)
    requires m > 0
    ensures (q * m + x) % m == x % m
  {
    assert x == (x / m) * m + x % m;
    assert q * m + x == (q + x / m) * m + x % m;
    DivModUnique(q * m + x, m, q + x / m, x % m);
  }

  /** A multiple of `m * k` is a multiple of `m`. */
  lemma ModOfMultiple(a: int, m: int, k: int)
    requires m > 0 && k > 0 && a % (m * k) == 0
    ensures a % m == 0
  {
    var q := a / (m * k);
    assert a == q * (m * k);
    assert a == (q * k) * m + 0;
    DivModUnique(a, m, q * k, 0);
  }
}

/** The Option type used for partial results and for Rust's `Option`. */
module Optional {

  datatype Option<+T> = None | Some(value: T) {

    predicate IsFailure() {
      None?
    }

    function PropagateFailure<U>(): Option<U>
      requires None?
    {
      None
    }

    function Extract(): T
      requires Some?
    {
      value
    }
  }
}
