/**
 Bit-level view of Python's unbounded integers. Python's `n >> 1` is floor division by
 two, which for a positive divisor is exactly Dafny's Euclidean `/`, so `HasBit` agrees
 with the two's-complement reading Python gives to `&` on negative numbers as well.
 */
module Bits {

  function Pow2(k: nat): (p: nat)
    ensures p >= 1
  {
    if k == 0 then 1 else 2 * Pow2(k - 1)
  }

  lemma {:induction false} Pow2Add(a: nat, b: nat)
    ensures Pow2(a + b) == Pow2(a) * Pow2(b)
    decreases a
  {
    if a > 0 {
      Pow2Add(a - 1, b);
    }
  }

  /** `(n >> k) & 1 == 1` in Python. */
  predicate HasBit(n: int, k: nat)
    decreases k
  {
    if k == 0 then n % 2 == 1 else HasBit(n / 2, k - 1)
  }

  /** `n | (1 << k)` in Python. */
  function SetBit(n: int, k: nat): int
    decreases k
  {
    if k == 0 then (if n % 2 == 1 then n else n + 1)
    else 2 * SetBit(n / 2, k - 1) + n % 2
  }

  /** The non-negative number whose binary digits, least significant first, are `b`. */
  function FromBits(b: seq<bool>): nat
  {
    if |b| == 0 then 0 else (if b[0] then 1 else 0) + 2 * FromBits(b[1..])
  }

  /** Setting bit k turns exactly that bit on and leaves every other bit as it was. */
  lemma {:induction false} SetBitBits(n: int, k: nat, j: nat)
    ensures HasBit(SetBit(n, k), j) <==> (j == k || HasBit(n, j))
    decreases k
  {
    var r := SetBit(n, k);
    if k == 0 {
      if j > 0 {
        assert r / 2 == n / 2;
      }
    } else {
      assert r / 2 == SetBit(n / 2, k - 1) && r % 2 == n % 2;
      if j > 0 {
        SetBitBits(n / 2, k - 1, j - 1);
      }
    }
  }

  /** Setting a bit that is already set changes nothing; otherwise it adds that power of two. */
  lemma {:induction false} SetBitValue(n: int, k: nat)
    ensures HasBit(n, k) ==> SetBit(n, k) == n
    ensures !HasBit(n, k) ==> SetBit(n, k) == n + Pow2(k)
    decreases k
  {
    if k > 0 {
      SetBitValue(n / 2, k - 1);
    }
  }

  lemma {:induction false} HasBitZero(k: nat)
    ensures !HasBit(0, k)
    decreases k
  {
    if k > 0 {
      HasBitZero(k - 1);
    }
  }

  /** Bit k of `FromBits(b)` is digit k of `b`, and every bit beyond the digits is clear. */
  lemma {:induction false} FromBitsBit(b: seq<bool>, k: nat)
    ensures HasBit(FromBits(b), k) <==> k < |b| && b[k]
    decreases |b|
  {
    if |b| == 0 {
      HasBitZero(k);
    } else {
      var n := FromBits(b);
      assert n % 2 == (if b[0] then 1 else 0) && n / 2 == FromBits(b[1..]);
      if k > 0 {
        FromBitsBit(b[1..], k - 1);
      }
    }
  }

  /** OR-ing in bit k is turning digit k on. */
  lemma {:induction false} SetBitFromBits(b: seq<bool>, k: nat)
    requires k < |b|
    ensures SetBit(FromBits(b), k) == FromBits(b[k := true])
    decreases k
  {
    var n := FromBits(b);
    assert n % 2 == (if b[0] then 1 else 0) && n / 2 == FromBits(b[1..]);
    if k == 0 {
      assert b[k := true][1..] == b[1..];
    } else {
      SetBitFromBits(b[1..], k - 1);
      assert b[k := true][1..] == b[1..][k - 1 := true];
    }
  }

  /** A non-negative number with bit k set is at least 2^k. */
  lemma {:induction false} HasBitLowerBound(n: int, k: nat)
    requires n >= 0 && HasBit(n, k)
    ensures n >= Pow2(k)
    decreases k
  {
    if k > 0 {
      HasBitLowerBound(n / 2, k - 1);
    }
  }

  /** A non-negative number with two different bits set is at least the sum of their powers. */
  lemma {:induction false} TwoBitsLowerBound(n: int, j: nat, k: nat)
    requires n >= 0 && j != k && HasBit(n, j) && HasBit(n, k)
    ensures n >= Pow2(j) + Pow2(k)
    decreases j + k
  {
    if j == 0 {
      HasBitLowerBound(n / 2, k - 1);
    } else if k == 0 {
      HasBitLowerBound(n / 2, j - 1);
    } else {
      TwoBitsLowerBound(n / 2, j - 1, k - 1);
    }
  }

  /** A number of |b| binary digits whose top digit is clear is below 2^(|b|-1). */
  lemma {:induction false} FromBitsTopClear(b: seq<bool>)
    requires |b| > 0 && !b[|b| - 1]
    ensures FromBits(b) < Pow2(|b| - 1)
    decreases |b|
  {
    if |b| > 1 {
      assert b[1..][|b[1..]| - 1] == b[|b| - 1];
      FromBitsTopClear(b[1..]);
    }
  }
}
