// Unsigned machine arithmetic on naturals: powers of two, `&`, `>>` and the
// rounding-up division that the hash table computes with them.
module Bits {

  function Pow(b: nat, k: nat): (p: nat)
    ensures b > 0 ==> p > 0
  {
    if k == 0 then 1 else b * Pow(b, k - 1)
  }

  lemma {:induction false} PowAdd(b: nat, j: nat, k: nat)
    ensures Pow(b, j + k) == Pow(b, j) * Pow(b, k)
    decreases j
  {
    if j > 0 {
      PowAdd(b, j - 1, k);
      Associate(b, Pow(b, j - 1), Pow(b, k));
    }
  }

  lemma Associate(a: nat, b: nat, c: nat)
    ensures (a * b) * c == a * (b * c)
  {
  }

  function Min(a: nat, b: nat): nat { if a < b then a else b }

  function Max(a: nat, b: nat): nat { if a < b then b else a }

  // Bitwise conjunction, least significant bit first.
  function And(a: nat, b: nat): (r: nat)
    ensures r <= b
  {
    if a == 0 || b == 0 then 0
    else (if a % 2 == 1 && b % 2 == 1 then 1 else 0) + 2 * And(a / 2, b / 2)
  }

  function ShiftRight(a: nat, k: nat): nat
  {
    DivNonNegative(a, Pow(2, k));
    a / Pow(2, k)
  }

  lemma DivNonNegative(a: nat, b: nat)
    requires b > 0
    ensures a / b >= 0
  {
    assert (a / b + 1) * b == a - a % b + b;
    PositiveFactor(a / b + 1, b);
  }

  lemma PositiveFactor(x: int, b: nat)
    requires x * b > 0
    ensures x > 0
  {
  }

  function CeilDiv(a: nat, b: nat): nat
    requires b > 0
  {
    if a % b == 0 then a / b else a / b + 1
  }

  lemma DivModUnique(a: int, b: int, q: int, r: int)
    requires b > 0 && 0 <= r < b && a == q * b + r
    ensures a / b == q && a % b == r
  {
    var d := a / b - q;
    assert d * b == r - a % b;
    assert d >= 1 ==> d * b >= b;
    assert d <= -1 ==> d * b <= -b;
  }

  lemma {:induction false} HalvesOfMod(a: nat, k: nat)
    requires k > 0
    ensures a % Pow(2, k) == a % 2 + 2 * ((a / 2) % Pow(2, k - 1))
  {
    var m := Pow(2, k - 1);
    var q := (a / 2) / m;
    var r := (a / 2) % m;
    assert a / 2 == q * m + r;
    assert a == q * (2 * m) + (a % 2 + 2 * r);
    DivModUnique(a, 2 * m, q, a % 2 + 2 * r);
  }

  // Masking with 2^k - 1 keeps the remainder modulo 2^k.
  lemma {:induction false} MaskIsMod(a: nat, k: nat)
    ensures And(a, Pow(2, k) - 1) == a % Pow(2, k)
  {
    if k == 0 {
    } else {
      MaskIsMod(a / 2, k - 1);
      HalvesOfMod(a, k);
      var m := Pow(2, k) - 1;
      assert m / 2 == Pow(2, k - 1) - 1 && m % 2 == 1;
      if a == 0 {
        assert a % Pow(2, k) == 0 by { DivModUnique(0, Pow(2, k), 0, 0); }
      }
    }
  }

  // The ideal chain length of HASH_EXPAND_BUCKETS, a shift and a mask, is the
  // number of items over the number of buckets rounded up.
  lemma ShiftMaskIsCeilDiv(items: nat, k: nat)
    ensures ShiftRight(items, k) + (if And(items, Pow(2, k) - 1) != 0 then 1 else 0) == CeilDiv(items, Pow(2, k))
  {
    MaskIsMod(items, k);
  }

  lemma CeilDivBounds(a: nat, b: nat)
    requires b > 0
    ensures a <= CeilDiv(a, b) * b < a + b
    ensures a > 0 ==> CeilDiv(a, b) > 0
  {
    assert a == (a / b) * b + a % b;
    if a % b != 0 {
      assert (a / b + 1) * b == (a / b) * b + b;
    }
    if a > 0 && a / b == 0 {
      assert (a / b) * b == 0;
    }
  }

  // A remainder modulo 2^(k+1) determines the remainder modulo 2^k.
  lemma ModOfDouble(a: nat, k: nat)
    ensures (a % Pow(2, k + 1)) % Pow(2, k) == a % Pow(2, k)
  {
    var m := Pow(2, k);
    var r := a % (2 * m);
    var q := a / (2 * m);
    assert a == q * (2 * m) + r;
    assert a == (2 * q + r / m) * m + r % m by {
      assert r == (r / m) * m + r % m;
      assert q * (2 * m) == (2 * q) * m;
      assert (2 * q + r / m) * m == (2 * q) * m + (r / m) * m;
    }
    DivModUnique(a, m, 2 * q + r / m, r % m);
  }
}
