/** Bitwise operations on natural numbers: rounding up to powers of two, and masking by them. */
module Bits {
  import opened Prelude

  function Pow2(n: nat): (p: nat)
    ensures p >= 1
  {
    if n == 0 then 1 else 2 * Pow2(n - 1)
  }

  function And(a: nat, b: nat): nat {
    if a == 0 || b == 0 then 0
    else 2 * And(a / 2, b / 2) + if a % 2 == 1 && b % 2 == 1 then 1 else 0
  }

  function Or(a: nat, b: nat): nat
    decreases a + b
  {
    if a == 0 then b else if b == 0 then a
    else 2 * Or(a / 2, b / 2) + if a % 2 == 1 || b % 2 == 1 then 1 else 0
  }

  function Shr(a: nat, n: nat): nat {
    if n == 0 then a else Shr(a / 2, n - 1)
  }

  predicate Bit(a: nat, i: nat) {
    if i == 0 then a % 2 == 1 else Bit(a / 2, i - 1)
  }

  lemma {:induction false} BitOfOr(a: nat, b: nat, i: nat)
    ensures Bit(Or(a, b), i) <==> Bit(a, i) || Bit(b, i)
    decreases i
  {
    NoBits(i);
    if a != 0 && b != 0 && i > 0 {
      BitOfOr(a / 2, b / 2, i - 1);
    }
  }

  lemma {:induction false} NoBits(i: nat)
    ensures !Bit(0, i)
  {
    if i > 0 {
      NoBits(i - 1);
    }
  }

  lemma {:induction false} BitOfShr(a: nat, n: nat, i: nat)
    ensures Bit(Shr(a, n), i) <==> Bit(a, i + n)
    decreases n
  {
    if n > 0 {
      BitOfShr(a / 2, n - 1, i);
    }
  }

  lemma {:induction false} OrBelow(a: nat, b: nat, m: nat)
    requires a < Pow2(m) && b < Pow2(m)
    ensures Or(a, b) < Pow2(m)
    decreases m
  {
    if a != 0 && b != 0 {
      OrBelow(a / 2, b / 2, m - 1);
    }
  }

  lemma {:induction false} ShrBelow(a: nat, n: nat)
    ensures Shr(a, n) <= a
    decreases n
  {
    if n > 0 {
      ShrBelow(a / 2, n - 1);
    }
  }

  lemma {:induction false} AllOnes(a: nat, m: nat)
    requires a < Pow2(m) && forall i: nat :: i < m ==> Bit(a, i)
    ensures a == Pow2(m) - 1
    decreases m
  {
    if m > 0 {
      assert Bit(a, 0);
      forall i: nat | i < m - 1
        ensures Bit(a / 2, i)
      {
        assert Bit(a, i + 1);
      }
      AllOnes(a / 2, m - 1);
    }
  }

  /** The `t` highest of `m` bits are set. */
  ghost predicate Headed(a: nat, m: nat, t: nat) {
    a < Pow2(m) && forall i: nat :: i < m <= i + t ==> Bit(a, i)
  }

  /** One smearing step doubles the run of ones at the head. */
  lemma Smear(a: nat, m: nat, t: nat)
    requires Headed(a, m, t)
    ensures Headed(Or(a, Shr(a, t)), m, 2 * t)
  {
    ShrBelow(a, t);
    OrBelow(a, Shr(a, t), m);
    forall i: nat | i < m <= i + 2 * t
      ensures Bit(Or(a, Shr(a, t)), i)
    {
      BitOfOr(a, Shr(a, t), i);
      BitOfShr(a, t, i);
      if m <= i + t {
        assert Bit(a, i);
      } else {
        assert Bit(a, i + t);
      }
    }
  }

  const SHIFTS: seq<nat> := [1, 2, 4, 8, 16, 32]

  /** Smears the number over itself, shifted by each amount in turn. */
  function Smeared(n: nat, shifts: seq<nat>): nat
    decreases |shifts|
  {
    if shifts == [] then n
    else
      var a := Smeared(n, shifts[..|shifts| - 1]);
      Or(a, Shr(a, shifts[|shifts| - 1]))
  }

  function Wrapped(n: nat): uint64 {
    n % 0x1_0000_0000_0000_0000
  }

  function NextPowerOf2(n: uint64): uint64 {
    if n == 0 then 1 else Wrapped(Smeared(n - 1, SHIFTS) + 1)
  }

  /** Shifting by one, two, four and so on makes the run of ones at the head as long again each time. */
  lemma {:induction false} SmearedHead(n: nat, m: nat, shifts: seq<nat>)
    requires Headed(n, m, 1) && forall i :: 0 <= i < |shifts| ==> shifts[i] == Pow2(i)
    ensures Headed(Smeared(n, shifts), m, Pow2(|shifts|))
    decreases |shifts|
  {
    if shifts != [] {
      var front := shifts[..|shifts| - 1];
      SmearedHead(n, m, front);
      Smear(Smeared(n, front), m, Pow2(|front|));
    }
  }

  lemma SmearedAll(n: nat, m: nat)
    requires Headed(n, m, 1) && m <= 64
    ensures Smeared(n, SHIFTS) + 1 == Pow2(m)
  {
    SmearedHead(n, m, SHIFTS);
    AllOnes(Smeared(n, SHIFTS), m);
  }

  /** The number of binary digits. */
  function Length(n: nat): (m: nat)
    ensures n < Pow2(m) && (n > 0 ==> m > 0 && Pow2(m - 1) <= n) && (n == 0 ==> m == 0)
  {
    if n == 0 then 0 else Length(n / 2) + 1
  }

  lemma {:induction false} Pow2Monotone(a: nat, b: nat)
    requires a <= b
    ensures Pow2(a) <= Pow2(b)
    decreases b
  {
    if a < b {
      Pow2Monotone(a, b - 1);
    }
  }

  lemma Pow2Sixty()
    ensures Pow2(63) == 0x8000_0000_0000_0000 && Pow2(64) == 0x1_0000_0000_0000_0000
  {
    assert Pow2(8) == 0x100;
    assert Pow2(16) == 0x1_0000;
    assert Pow2(24) == 0x100_0000;
    assert Pow2(32) == 0x1_0000_0000;
    assert Pow2(40) == 0x100_0000_0000;
    assert Pow2(48) == 0x1_0000_0000_0000;
    assert Pow2(56) == 0x100_0000_0000_0000;
  }

  /** The position above the highest bit. */
  lemma TopBit(n: uint64) returns (m: nat)
    ensures m <= 64 && Headed(n, m, 1) && (m > 0 ==> Pow2(m - 1) <= n)
    ensures m == 64 <==> n >= 0x8000_0000_0000_0000
  {
    m := Length(n);
    LengthBound(n);
    HeadedOne(n);
  }

  lemma HeadedPower(n: uint64, m: nat)
    requires n > 0 && Headed(n - 1, m, 1) && m <= 64
    ensures NextPowerOf2(n) == Wrapped(Pow2(m))
  {
    SmearedAll(n - 1, m);
  }

  lemma LeastPower(n: nat, m: nat)
    requires n <= Pow2(m) && (m > 0 ==> Pow2(m - 1) < n)
    ensures forall j: nat :: n <= Pow2(j) ==> Pow2(m) <= Pow2(j)
  {
    forall j: nat | n <= Pow2(j)
      ensures Pow2(m) <= Pow2(j)
    {
      if j < m {
        Pow2Monotone(j, m - 1);
      } else {
        Pow2Monotone(m, j);
      }
    }
  }

  lemma HeadedOne(n: nat)
    ensures Headed(n, Length(n), 1)
  {
  }

  lemma PowersInRange(m: nat)
    requires m <= 64
    ensures Wrapped(Pow2(m)) == if m < 64 then Pow2(m) else 0
  {
    Pow2Sixty();
    if m < 64 {
      Pow2Monotone(m, 63);
    }
  }

  /** Up to 2^63 the result is the least power of two that is not below `n`; beyond, where no such 64-bit
      number exists, the sum wraps to zero. */
  lemma RoundsUp(n: uint64)
    ensures n <= 0x8000_0000_0000_0000 ==>
      exists k: nat :: NextPowerOf2(n) == Pow2(k) && n <= Pow2(k) && forall j: nat :: n <= Pow2(j) ==> Pow2(k) <= Pow2(j)
    ensures n > 0x8000_0000_0000_0000 ==> NextPowerOf2(n) == 0
  {
    if n == 0 {
      LeastPower(0, 0);
      assert NextPowerOf2(n) == Pow2(0);
    } else {
      var m := TopBit(n - 1);
      HeadedPower(n, m);
      PowersInRange(m);
      LeastPower(n, m);
    }
  }

  lemma LengthBound(n: nat)
    requires n < 0x1_0000_0000_0000_0000
    ensures Length(n) <= 64
    ensures Length(n) == 64 <==> n >= 0x8000_0000_0000_0000
  {
    Pow2Sixty();
    var m := Length(n);
    if m > 64 {
      Pow2Monotone(64, m - 1);
    } else if m < 64 {
      Pow2Monotone(m, 63);
    }
  }

  /** The number made of the `k` lowest bits. */
  function LowBits(h: nat, k: nat): nat
    decreases k
  {
    if k == 0 then 0 else 2 * LowBits(h / 2, k - 1) + h % 2
  }

  lemma {:induction false} LowBitsOfZero(k: nat)
    ensures LowBits(0, k) == 0
  {
    if k > 0 {
      LowBitsOfZero(k - 1);
    }
  }

  lemma {:induction false} MaskIsLowBits(h: nat, k: nat)
    ensures And(h, Pow2(k) - 1) == LowBits(h, k)
    decreases k
  {
    if h == 0 {
      LowBitsOfZero(k);
    } else if k > 0 {
      var b, half := Pow2(k) - 1, Pow2(k - 1) - 1;
      MaskIsLowBits(h / 2, k - 1);
      assert b == 2 * half + 1;
      assert b / 2 == half && b % 2 == 1;
    }
  }

  lemma {:induction false} LowBitsAreRemainder(h: nat, k: nat)
    ensures LowBits(h, k) == h % Pow2(k)
    decreases k
  {
    if k > 0 {
      LowBitsAreRemainder(h / 2, k - 1);
      HalfRemainder(h, Pow2(k - 1));
    }
  }

  /** Masking by a power of two less one is taking the remainder. */
  lemma MaskIsRemainder(h: nat, k: nat)
    ensures And(h, Pow2(k) - 1) == h % Pow2(k)
  {
    MaskIsLowBits(h, k);
    LowBitsAreRemainder(h, k);
  }

  lemma HalfRemainder(h: nat, p: nat)
    requires p >= 1
    ensures h % (2 * p) == 2 * (h / 2 % p) + h % 2
  {
    var q := h / 2 / p;
    var r := h / 2 % p;
    assert h / 2 == q * p + r;
    assert q * (2 * p) == 2 * (q * p);
    RemainderUnique(h, 2 * p, q, 2 * r + h % 2);
  }

  lemma RemainderUnique(h: nat, d: nat, q: nat, r: nat)
    requires d > 0 && h == q * d + r && r < d
    ensures h % d == r
  {
    var q', r' := h / d, h % d;
    assert h == q' * d + r';
    assert (q - q') * d == r' - r;
    SmallMultiple(q - q', d);
  }
}
