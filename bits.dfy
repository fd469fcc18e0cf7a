/** Bitwise operations on the low `n` bits of a natural number, defined bit by bit
    (least significant bit first), with the per-bit facts that characterise them. */
module Bits {

  function Pow2(n: nat): (p: nat)
    ensures p >= 1
  {
    if n == 0 then 1 else 2 * Pow2(n - 1)
  }

  /** Bit `i` of `x` is set. */
  predicate Bit(x: nat, i: nat) {
    if i == 0 then x % 2 == 1 else Bit(x / 2, i - 1)
  }

  /** C's `&` on the low `n` bits. */
  function And(x: nat, y: nat, n: nat): (r: nat)
    ensures r < Pow2(n)
  {
    if n == 0 then 0
    else 2 * And(x / 2, y / 2, n - 1) + (if x % 2 == 1 && y % 2 == 1 then 1 else 0)
  }

  /** C's `|` on the low `n` bits. */
  function Or(x: nat, y: nat, n: nat): (r: nat)
    ensures r < Pow2(n)
  {
    if n == 0 then 0
    else 2 * Or(x / 2, y / 2, n - 1) + (if x % 2 == 1 || y % 2 == 1 then 1 else 0)
  }

  /** C's `~` on an `n`-bit pattern. */
  function Complement(x: nat, n: nat): (r: nat)
    requires x < Pow2(n)
    ensures r < Pow2(n)
    ensures forall i :: 0 <= i < n ==> (Bit(r, i) <==> !Bit(x, i))
  {
    forall i | 0 <= i < n ensures Bit(Pow2(n) - 1 - x, i) <==> !Bit(x, i) {
      ComplementBit(x, n, i);
    }
    Pow2(n) - 1 - x
  }

  lemma {:induction false} AndBit(x: nat, y: nat, n: nat, i: nat)
    requires i < n
    ensures Bit(And(x, y, n), i) <==> Bit(x, i) && Bit(y, i)
  {
    if i > 0 {
      AndBit(x / 2, y / 2, n - 1, i - 1);
    }
  }

  lemma {:induction false} OrBit(x: nat, y: nat, n: nat, i: nat)
    requires i < n
    ensures Bit(Or(x, y, n), i) <==> Bit(x, i) || Bit(y, i)
  {
    if i > 0 {
      OrBit(x / 2, y / 2, n - 1, i - 1);
    }
  }

  lemma {:induction false} ComplementBit(x: nat, n: nat, i: nat)
    requires x < Pow2(n) && i < n
    ensures Bit(Pow2(n) - 1 - x, i) <==> !Bit(x, i)
  {
    var r := Pow2(n) - 1 - x;
    assert r % 2 == 1 - x % 2;
    if i > 0 {
      assert r / 2 == Pow2(n - 1) - 1 - x / 2;
      ComplementBit(x / 2, n - 1, i - 1);
    }
  }

  /** Two `n`-bit numbers with the same bits are equal. */
  lemma {:induction false} BitsDetermine(x: nat, y: nat, n: nat)
    requires x < Pow2(n) && y < Pow2(n)
    requires forall i :: 0 <= i < n ==> (Bit(x, i) <==> Bit(y, i))
    ensures x == y
  {
    if n > 0 {
      forall i | 0 <= i < n - 1 ensures Bit(x / 2, i) <==> Bit(y / 2, i) {
        assert Bit(x, i + 1) <==> Bit(y, i + 1);
      }
      BitsDetermine(x / 2, y / 2, n - 1);
      assert Bit(x, 0) <==> Bit(y, 0);
    }
  }

  /** `x | 0 == x` on `n` bits. */
  lemma {:induction false} OrZero(x: nat, n: nat)
    requires x < Pow2(n)
    ensures Or(x, 0, n) == x
  {
    if n > 0 {
      OrZero(x / 2, n - 1);
    }
  }

  lemma DivUnique(m: int, d: int, q: int, r: int)
    requires d >= 1 && m == q * d + r && 0 <= r < d
    ensures m / d == q
  {
    var q', r' := m / d, m % d;
    var k := q - q';
    assert k * d == r' - r by {
      assert m == q' * d + r';
      assert q * d - q' * d == k * d;
    }
    if k >= 1 {
      AtLeastOnce(k, d);
    } else if k <= -1 {
      AtLeastOnce(-k, d);
    }
  }

  lemma AtLeastOnce(k: int, d: int)
    requires k >= 1 && d >= 1
    ensures k * d >= d
  {
    assert k * d == (k - 1) * d + d;
  }

  lemma HalveQuotient(a: nat, b: nat, p: nat)
    requires b < 2 && p >= 1
    ensures (2 * a + b) / (2 * p) == a / p
  {
    var q, r := a / p, a % p;
    assert a == q * p + r;
    assert 2 * a + b == q * (2 * p) + (2 * r + b);
    DivUnique(2 * a + b, 2 * p, q, 2 * r + b);
  }

  /** OR-ing in a value below 2^k leaves every bit from k upward as it was:
      the part of `x` above bit k is unchanged. */
  lemma {:induction false} OrKeepsHighPart(x: nat, y: nat, n: nat, k: nat)
    requires k <= n && x < Pow2(n) && y < Pow2(k)
    ensures Or(x, y, n) / Pow2(k) == x / Pow2(k)
  {
    if k == 0 {
      OrZero(x, n);
    } else {
      OrKeepsHighPart(x / 2, y / 2, n - 1, k - 1);
      HalveQuotient(Or(x / 2, y / 2, n - 1), if x % 2 == 1 || y % 2 == 1 then 1 else 0, Pow2(k - 1));
      HalveQuotient(x / 2, x % 2, Pow2(k - 1));
    }
  }

  /** A number below 2^k has no bit at position k or above. */
  lemma {:induction false} BitBelowPow2(x: nat, k: nat, i: nat)
    requires x < Pow2(k) && k <= i
    ensures !Bit(x, i)
  {
    if k > 0 {
      BitBelowPow2(x / 2, k - 1, i - 1);
    } else {
      assert x == 0;
      ZeroHasNoBits(i);
    }
  }

  lemma {:induction false} ZeroHasNoBits(i: nat)
    ensures !Bit(0, i)
  {
    if i > 0 {
      ZeroHasNoBits(i - 1);
    }
  }

  /** Reducing modulo 2^k keeps the bits below k. */
  lemma {:induction false} BitOfMod(v: nat, k: nat, i: nat)
    requires i < k
    ensures Bit(v % Pow2(k), i) <==> Bit(v, i)
  {
    var bigP := Pow2(k);
    var p := Pow2(k - 1);
    HalveRemainder(v, bigP, p);
    if i > 0 {
      BitOfMod(v / 2, k - 1, i - 1);
    }
  }

  /** With P = 2p: the lowest bit of v % P is that of v, and halving v % P is
      halving v and reducing modulo p. */
  lemma HalveRemainder(v: nat, bigP: nat, p: nat)
    requires p >= 1 && bigP == 2 * p
    ensures (v % bigP) % 2 == v % 2
    ensures (v % bigP) / 2 == (v / 2) % p
  {
    var q, m := v / bigP, v % bigP;
    assert v == q * bigP + m;
    var a := q * p;
    assert q * bigP == 2 * a;
    assert v == 2 * (a + m / 2) + m % 2;
    DivUnique(v, 2, a + m / 2, m % 2);
    DivUnique(v / 2, p, q, m / 2);
  }

  /** Multiplying by 2^n moves every bit up by n places. */
  lemma {:induction false} BitOfShiftLeft(x: nat, n: nat, i: nat)
    ensures Bit(x * Pow2(n), i) <==> n <= i && Bit(x, i - n)
  {
    if n > 0 {
      var z := x * Pow2(n - 1);
      assert x * Pow2(n) == 2 * z;
      if i > 0 {
        assert (2 * z) / 2 == z;
        BitOfShiftLeft(x, n - 1, i - 1);
      }
    }
  }

  /** C's `>>` on a non-negative value: n halvings, rounding down each time. */
  function ShiftRight(x: nat, n: nat): (r: nat)
    ensures r <= x
  {
    if n == 0 then x else ShiftRight(x / 2, n - 1)
  }

  /** Shifting right by n moves every bit down by n places. */
  lemma {:induction false} BitOfShiftRight(x: nat, n: nat, i: nat)
    ensures Bit(ShiftRight(x, n), i) <==> Bit(x, i + n)
  {
    if n > 0 {
      BitOfShiftRight(x / 2, n - 1, i);
      assert Bit(x, i + n) <==> Bit(x / 2, i + n - 1);
    }
  }

  lemma Pow2Facts()
    ensures Pow2(4) == 0x10 && Pow2(8) == 0x100 && Pow2(12) == 0x1000 && Pow2(16) == 0x1_0000
  {
    assert Pow2(4) == 16;
    assert Pow2(8) == 0x100;
    assert Pow2(12) == 0x1000;
  }

  /** OR-ing a value below 2^k into a number whose low k bits are clear is addition. */
  lemma {:induction false} OrDisjoint(x: nat, y: nat, n: nat, k: nat)
    requires k <= n && x < Pow2(n) && x % Pow2(k) == 0 && y < Pow2(k)
    ensures Or(x, y, n) == x + y
  {
    if k == 0 {
      OrZero(x, n);
    } else {
      HalveRemainder(x, Pow2(k), Pow2(k - 1));
      OrDisjoint(x / 2, y / 2, n - 1, k - 1);
    }
  }

  lemma {:induction false} Pow2Add(a: nat, b: nat)
    ensures Pow2(a + b) == Pow2(a) * Pow2(b)
  {
    if a > 0 {
      Pow2Add(a - 1, b);
      assert Pow2(a + b) == 2 * Pow2(a - 1 + b);
    }
  }
}
