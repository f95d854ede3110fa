/** Powers of two and the bitwise AND of natural numbers. */
module Bits {
  function Pow2(k: nat): (p: nat)
    ensures p > 0
  {
    if k == 0 then 1 else 2 * Pow2(k - 1)
  }

  function And(x: nat, y: nat): nat {
    if x == 0 || y == 0 then 0 else 2 * And(x / 2, y / 2) + if x % 2 == 1 && y % 2 == 1 then 1 else 0
  }

  /** Bit `k` of a number, counted from the lowest. */
  predicate Bit(x: nat, k: nat) {
    if k == 0 then x % 2 == 1 else Bit(x / 2, k - 1)
  }

  /** No bit of `y` is missing in `x`. */
  ghost predicate Covers(x: nat, y: nat) {
    forall k: nat :: Bit(y, k) ==> Bit(x, k)
  }

  lemma {:induction false} NoBitOfZero(k: nat)
    ensures !Bit(0, k)
  {
    if k > 0 {
      NoBitOfZero(k - 1);
    }
  }

  /** The AND of two numbers has the bits that both have. */
  lemma {:induction false} BitOfAnd(x: nat, y: nat, k: nat)
    ensures Bit(And(x, y), k) <==> Bit(x, k) && Bit(y, k)
  {
    NoBitOfZero(k);
    if x > 0 && y > 0 && k > 0 {
      BitOfAnd(x / 2, y / 2, k - 1);
    }
  }

  lemma CoversHalves(x: nat, y: nat)
    ensures Covers(x, y) <==> Covers(x / 2, y / 2) && (y % 2 == 1 ==> x % 2 == 1)
  {
    if Covers(x, y) {
      assert Bit(y, 0) ==> Bit(x, 0);
      forall k: nat | Bit(y / 2, k)
        ensures Bit(x / 2, k)
      {
        assert Bit(y, k + 1);
      }
    }
    if Covers(x / 2, y / 2) && (y % 2 == 1 ==> x % 2 == 1) {
      forall k: nat | Bit(y, k)
        ensures Bit(x, k)
      {
        assert k > 0 ==> Bit(y / 2, k - 1);
      }
    }
  }

  /** A number is its own AND with another exactly when the other has all its bits. */
  lemma {:induction false} AndIsMask(x: nat, y: nat)
    ensures And(x, y) == y <==> Covers(x, y)
  {
    if y == 0 {
      forall k: nat
        ensures !Bit(0, k)
      {
        NoBitOfZero(k);
      }
    } else {
      CoversHalves(x, y);
      AndIsMask(x / 2, y / 2);
      if x == 0 {
        assert And(0, y / 2) == 0;
      }
    }
  }

  lemma {:induction false} AndSelf(x: nat)
    ensures And(x, x) == x
  {
    if x > 0 {
      AndSelf(x / 2);
    }
  }

  lemma {:induction false} AndSymmetric(x: nat, y: nat)
    ensures And(x, y) == And(y, x)
  {
    if x > 0 && y > 0 {
      AndSymmetric(x / 2, y / 2);
    }
  }

  lemma {:induction false} AndBound(x: nat, y: nat)
    ensures And(x, y) <= x && And(x, y) <= y
  {
    if x > 0 && y > 0 {
      AndBound(x / 2, y / 2);
    }
  }

  lemma Halves(x: nat, m: nat)
    requires m > 0
    ensures x % (2 * m) == 2 * ((x / 2) % m) + x % 2
  {
    var h := x / 2;
    var q, r := h / m, h % m;
    assert h == q * m + r;
    assert x == q * (2 * m) + (2 * r + x % 2);
    Remainder(x, q, 2 * m, 2 * r + x % 2);
  }

  lemma Remainder(x: int, q: int, m: int, r: int)
    requires 0 <= r < m && x == q * m + r
    ensures x % m == r && x / m == q
  {
    var d := x / m - q;
    assert x == (x / m) * m + x % m;
    assert d * m == r - x % m;
    Multiple(d, m);
  }

  lemma Multiple(d: int, m: int)
    requires m > 0
    ensures d >= 1 ==> d * m >= m
    ensures d <= -1 ==> d * m <= -m
  {
  }

  lemma AddMultiple(x: nat, m: nat, c: nat)
    requires m > 0
    ensures (x + m * c) % m == x % m
  {
    var q, r := x / m, x % m;
    assert x + m * c == (q + c) * m + r;
    Remainder(x + m * c, q + c, m, r);
  }

  lemma ParityKept(x: nat, m: nat)
    requires m > 0
    ensures x % (2 * m) % 2 == x % 2
  {
    Halves(x, m);
  }

  lemma Scaled(x: nat, m: nat, c: nat)
    requires m > 0 && c > 0
    ensures x * c % (m * c) == x % m * c
  {
    var q, r := x / m, x % m;
    assert x == q * m + r;
    assert x * c == q * (m * c) + r * c;
    assert r * c < m * c;
    Remainder(x * c, q, m * c, r * c);
  }

  /** Masking with the k low bits is the remainder by 2 to the k. */
  lemma {:induction false} AndLowMask(x: nat, k: nat)
    ensures And(x, Pow2(k) - 1) == x % Pow2(k)
  {
    if k > 0 {
      AndLowMask(x / 2, k - 1);
      Halves(x, Pow2(k - 1));
      var mask := Pow2(k) - 1;
      assert mask / 2 == Pow2(k - 1) - 1 && mask % 2 == 1;
    }
  }

  lemma {:induction false} Pow2Sum(a: nat, b: nat)
    ensures Pow2(a + b) == Pow2(a) * Pow2(b)
  {
    if a > 0 {
      Pow2Sum(a - 1, b);
    }
  }

  lemma Octets()
    ensures Pow2(0) == 1 && Pow2(1) == 2 && Pow2(2) == 4 && Pow2(3) == 8 && Pow2(4) == 16
    ensures Pow2(5) == 32 && Pow2(6) == 64 && Pow2(7) == 128 && Pow2(8) == 256
    ensures Pow2(32) == 0x1_0000_0000
  {
    assert Pow2(2) == 4 && Pow2(4) == 16 && Pow2(6) == 64 && Pow2(8) == 256;
    Pow2Sum(8, 8);
    Pow2Sum(16, 16);
  }
}
