/** Unsigned bit operations on naturals, for the 64-bit user-data arithmetic. */
module Bits {

  function Pow2(k: nat): (p: nat)
    ensures p >= 1
  {
    if k == 0 then 1 else 2 * Pow2(k - 1)
  }

  /** Bitwise OR, one bit at a time from the least significant. */
  function BitOr(a: nat, b: nat): nat
    decreases a + b
  {
    if a == 0 then b
    else if b == 0 then a
    else 2 * BitOr(a / 2, b / 2) + (if a % 2 == 1 || b % 2 == 1 then 1 else 0)
  }

  /** Bitwise AND, one bit at a time from the least significant. */
  function BitAnd(a: nat, b: nat): nat
    decreases a + b
  {
    if a == 0 || b == 0 then 0
    else 2 * BitAnd(a / 2, b / 2) + (if a % 2 == 1 && b % 2 == 1 then 1 else 0)
  }

  lemma {:induction false} Pow2Add(a: nat, b: nat)
    ensures Pow2(a + b) == Pow2(a) * Pow2(b)
    decreases a
  {
    if a > 0 {
      Pow2Add(a - 1, b);
    }
  }

  lemma Pow2Values()
    ensures Pow2(8) == 0x100
    ensures Pow2(24) == 0x100_0000
    ensures Pow2(32) == 0x1_0000_0000
    ensures Pow2(56) == 0x100_0000_0000_0000
    ensures Pow2(64) == 0x1_0000_0000_0000_0000
  {
    assert Pow2(2) == 4;
    assert Pow2(4) == 16 by { Pow2Add(2, 2); }
    assert Pow2(8) == 256 by { Pow2Add(4, 4); }
    assert Pow2(16) == 0x1_0000 by { Pow2Add(8, 8); }
    assert Pow2(32) == 0x1_0000_0000 by { Pow2Add(16, 16); }
    assert Pow2(24) == 0x100_0000 by { Pow2Add(16, 8); }
    assert Pow2(56) == 0x100_0000_0000_0000 by { Pow2Add(32, 24); }
    assert Pow2(64) == 0x1_0000_0000_0000_0000 by { Pow2Add(32, 32); }
  }

  /** Division with remainder has one answer. */
  lemma DivModUnique(a: int, m: int, q: int, r: int)
    requires m > 0 && a == m * q + r && 0 <= r < m
    ensures a / m == q && a % m == r
  {
    var q' := a / m;
    var r' := a % m;
    assert m * q + r == m * q' + r';
    var d := q - q';
    assert m * d == m * q - m * q';
    assert m * d == r' - r;
    MulAtLeast(m, d);
    MulAtLeast(m, -d);
    assert m * (-d) == -(m * d);
  }

  lemma MulAtLeast(m: int, d: int)
    ensures m >= 0 && d >= 1 ==> m * d >= m
  {
    if m >= 0 && d >= 1 {
      assert m * d == m + m * (d - 1);
    }
  }

  /** OR-ing a value below 2^k into a multiple of 2^k is addition. */
  lemma {:induction false} OrShifted(a: nat, b: nat, k: nat)
    requires a < Pow2(k)
    ensures BitOr(a, b * Pow2(k)) == a + b * Pow2(k)
    decreases k
  {
    if k > 0 && a != 0 && b != 0 {
      var B := b * Pow2(k);
      assert B == 2 * (b * Pow2(k - 1));
      assert B / 2 == b * Pow2(k - 1) && B % 2 == 0;
      OrShifted(a / 2, b, k - 1);
      assert BitOr(a, B) == 2 * BitOr(a / 2, B / 2) + a % 2;
    }
  }

  /** OR of two values below 2^k stays below 2^k. */
  lemma {:induction false} OrBound(a: nat, b: nat, k: nat)
    requires a < Pow2(k) && b < Pow2(k)
    ensures BitOr(a, b) < Pow2(k)
    decreases a + b
  {
    if a != 0 && b != 0 {
      assert k > 0;
      OrBound(a / 2, b / 2, k - 1);
    }
  }

  lemma HalveMod(a: nat, p: nat)
    requires p >= 1
    ensures 2 * ((a / 2) % p) + a % 2 == a % (2 * p)
  {
    var q := (a / 2) / p;
    var r := (a / 2) % p;
    assert a / 2 == p * q + r;
    assert a == (2 * p) * q + (2 * r + a % 2);
    DivModUnique(a, 2 * p, q, 2 * r + a % 2);
  }

  /** AND with the mask `2^k - 1` keeps the low `k` bits. */
  lemma {:induction false} AndLowMask(a: nat, k: nat)
    ensures BitAnd(a, Pow2(k) - 1) == a % Pow2(k)
    decreases k
  {
    if k > 0 && a != 0 {
      var m := Pow2(k) - 1;
      assert m % 2 == 1 && m / 2 == Pow2(k - 1) - 1;
      AndLowMask(a / 2, k - 1);
      HalveMod(a, Pow2(k - 1));
    }
  }

  lemma DivDiv(a: nat, p: nat)
    requires p >= 1
    ensures (a / 2) / p == a / (2 * p)
  {
    var q := (a / 2) / p;
    var r := (a / 2) % p;
    assert a == (2 * p) * q + (2 * r + a % 2);
    DivModUnique(a, 2 * p, q, 2 * r + a % 2);
  }

  /** AND with the single bit `2^k` is non-zero exactly when bit `k` is set. */
  lemma {:induction false} AndBit(a: nat, k: nat)
    ensures BitAnd(a, Pow2(k)) != 0 <==> (a / Pow2(k)) % 2 == 1
    decreases k
  {
    if k == 0 {
      assert Pow2(0) == 1;
      if a != 0 {
        assert BitAnd(a, 1) == 2 * BitAnd(a / 2, 0) + (if a % 2 == 1 then 1 else 0);
      }
    } else if a != 0 {
      var p := Pow2(k - 1);
      assert Pow2(k) == 2 * p;
      assert BitAnd(a, 2 * p) == 2 * BitAnd(a / 2, p) by {
        assert (2 * p) % 2 == 0 && (2 * p) / 2 == p;
      }
      AndBit(a / 2, k - 1);
      DivDiv(a, p);
    }
  }
}
