/** Machine words as natural numbers, with the C operators the drivers apply to them. */
module Bits {

  function Pow2(k: nat): (p: nat)
    ensures p > 0
  {
    if k == 0 then 1 else 2 * Pow2(k - 1)
  }

  ghost predicate IsPow2(p: nat) {
    exists k: nat :: p == Pow2(k)
  }

  /** Bit `i` of `x`. */
  predicate Bit(x: nat, i: nat)
    decreases i
  {
    if i == 0 then x % 2 == 1 else Bit(x / 2, i - 1)
  }

  /** `x & y` */
  function And(x: nat, y: nat): nat {
    if x == 0 || y == 0 then 0
    else (if x % 2 == 1 && y % 2 == 1 then 1 else 0) + 2 * And(x / 2, y / 2)
  }

  /** `x | y` */
  function Or(x: nat, y: nat): nat
    decreases x + y
  {
    if x == 0 then y else if y == 0 then x
    else (if x % 2 == 1 || y % 2 == 1 then 1 else 0) + 2 * Or(x / 2, y / 2)
  }

  /** `~x` in a word of `w` bits. */
  function Not(x: nat, w: nat): nat
    requires x < Pow2(w)
  {
    Pow2(w) - 1 - x
  }

  /** `ffs(x)`: one more than the index of the lowest set bit, 0 when there is none. */
  function Ffs(x: nat): (r: nat)
    ensures r == 0 <==> x == 0
    ensures r > 0 ==> Bit(x, r - 1) && forall j: nat | j < r - 1 :: !Bit(x, j)
  {
    if x == 0 then 0 else if x % 2 == 1 then 1 else
    var r := Ffs(x / 2) + 1;
    assert forall j: nat | 0 < j < r - 1 :: Bit(x, j) == Bit(x / 2, j - 1);
    r
  }

  lemma {:induction false} ZeroHasNoBits(i: nat)
    ensures !Bit(0, i)
  {
    if i > 0 {
      ZeroHasNoBits(i - 1);
    }
  }

  lemma {:induction false} AndBit(x: nat, y: nat, i: nat)
    ensures Bit(And(x, y), i) == (Bit(x, i) && Bit(y, i))
    decreases i
  {
    ZeroHasNoBits(i);
    if x != 0 && y != 0 && i > 0 {
      AndBit(x / 2, y / 2, i - 1);
      assert And(x, y) / 2 == And(x / 2, y / 2);
    }
  }

  ghost predicate CommonBit(x: nat, y: nat) {
    exists i: nat :: Bit(x, i) && Bit(y, i)
  }

  lemma AndNonZero(x: nat, y: nat)
    ensures And(x, y) != 0 <==> CommonBit(x, y)
  {
    forall i: nat
      ensures Bit(And(x, y), i) == (Bit(x, i) && Bit(y, i))
    {
      AndBit(x, y, i);
    }
    if And(x, y) == 0 {
      forall i: nat
        ensures !(Bit(x, i) && Bit(y, i))
      {
        ZeroHasNoBits(i);
        assert Bit(And(x, y), i) == (Bit(x, i) && Bit(y, i));
      }
    } else {
      var i := Ffs(And(x, y)) - 1;
      assert Bit(And(x, y), i) == (Bit(x, i) && Bit(y, i));
    }
  }

  lemma EvenHalves(x: nat, k: nat)
    requires k > 0
    ensures x % Pow2(k) == 0 <==> x % 2 == 0 && x / 2 % Pow2(k - 1) == 0
  {
    RemainderByHalves(x, Pow2(k - 1));
  }

  lemma ZeroIsMultiple(m: nat)
    requires m > 0
    ensures 0 % m == 0
  {
  }

  lemma AndOfEven(x: nat, y: nat)
    requires x % 2 == 0
    ensures And(x, y) % 2 == 0 && And(x, y) / 2 == And(x / 2, y / 2)
  {
  }

  /** A word with its low `k` bits clear keeps them clear under `&`. */
  lemma {:induction false} AndKeepsMultiple(x: nat, y: nat, k: nat)
    requires x % Pow2(k) == 0
    ensures And(x, y) % Pow2(k) == 0
  {
    if x == 0 || y == 0 {
      ZeroIsMultiple(Pow2(k));
    } else if k > 0 {
      EvenHalves(x, k);
      AndOfEven(x, y);
      AndKeepsMultiple(x / 2, y / 2, k - 1);
      EvenHalves(And(x, y), k);
    }
  }

  lemma {:induction false} OrBit(x: nat, y: nat, i: nat)
    ensures Bit(Or(x, y), i) == (Bit(x, i) || Bit(y, i))
    decreases i
  {
    ZeroHasNoBits(i);
    if x != 0 && y != 0 && i > 0 {
      OrBit(x / 2, y / 2, i - 1);
      assert Or(x, y) / 2 == Or(x / 2, y / 2);
    }
  }

  lemma {:induction false} OrBound(x: nat, y: nat, w: nat)
    requires x < Pow2(w) && y < Pow2(w)
    ensures Or(x, y) < Pow2(w)
  {
    if x != 0 && y != 0 && w > 0 {
      OrBound(x / 2, y / 2, w - 1);
    }
  }

  lemma {:induction false} AndBound(x: nat, y: nat)
    ensures And(x, y) <= x && And(x, y) <= y
  {
    if x != 0 && y != 0 {
      AndBound(x / 2, y / 2);
    }
  }

  /** `x & ~m` is `x` less the bits `x & m`. */
  lemma {:induction false} AndNotIsRest(x: nat, m: nat, w: nat)
    requires x < Pow2(w) && m < Pow2(w)
    ensures And(x, Not(m, w)) == x - And(x, m)
    decreases x
  {
    if x != 0 {
      AndNotIsRest(x / 2, m / 2, w - 1);
      assert Not(m, w) / 2 == Not(m / 2, w - 1);
    }
  }

  lemma {:induction false} NotBit(x: nat, w: nat, i: nat)
    requires x < Pow2(w) && i < w
    ensures Bit(Not(x, w), i) == !Bit(x, i)
    decreases i
  {
    if i > 0 {
      NotBit(x / 2, w - 1, i - 1);
      assert Not(x, w) / 2 == Not(x / 2, w - 1);
    }
  }

  lemma {:induction false} Pow2Bit(k: nat, i: nat)
    ensures Bit(Pow2(k), i) == (k == i)
    decreases i
  {
    if i > 0 && k > 0 {
      Pow2Bit(k - 1, i - 1);
      assert Pow2(k) / 2 == Pow2(k - 1);
    } else if i > 0 {
      ZeroHasNoBits(i - 1);
    }
  }

  lemma {:induction false} LowMaskBit(n: nat, i: nat)
    ensures Bit(Pow2(n) - 1, i) == (i < n)
    decreases i
  {
    if n == 0 {
      ZeroHasNoBits(i);
    } else if i > 0 {
      LowMaskBit(n - 1, i - 1);
      assert (Pow2(n) - 1) / 2 == Pow2(n - 1) - 1;
    }
  }

  lemma {:induction false} HighBitsClear(x: nat, w: nat, i: nat)
    requires x < Pow2(w) && w <= i
    ensures !Bit(x, i)
    decreases i
  {
    if w == 0 {
      ZeroHasNoBits(i);
    } else {
      HighBitsClear(x / 2, w - 1, i - 1);
    }
  }

  /** A word is determined by its bits. */
  lemma {:induction false} SameBitsSameWord(x: nat, y: nat)
    requires forall i: nat :: Bit(x, i) == Bit(y, i)
    ensures x == y
    decreases x + y
  {
    if x != 0 || y != 0 {
      assert Bit(x, 0) == Bit(y, 0);
      forall i: nat
        ensures Bit(x / 2, i) == Bit(y / 2, i)
      {
        assert Bit(x, i + 1) == Bit(y, i + 1);
      }
      SameBitsSameWord(x / 2, y / 2);
    }
  }

  lemma {:induction false} Pow2Monotone(j: nat, k: nat)
    requires j <= k
    ensures Pow2(j) <= Pow2(k)
    ensures Pow2(k) % Pow2(j) == 0
  {
    if j < k {
      Pow2Monotone(j, k - 1);
      var p, q := Pow2(j), Pow2(k - 1) / Pow2(j);
      assert Pow2(k - 1) == p * q;
      assert Pow2(k) == p * (2 * q) by {
        assert p * (2 * q) == 2 * (p * q);
      }
      MultipleMod(p, 2 * q);
    } else {
      MultipleMod(Pow2(j), 1);
    }
  }

  lemma MultipleMod(m: nat, q: nat)
    requires m > 0
    ensures m * q % m == 0
  {
    assert m * q == 0 + m * q;
    ModUnique(m * q, m, q, 0);
  }

  lemma ModUnique(x: nat, m: nat, q: nat, r: nat)
    requires x == m * q + r && r < m
    ensures x % m == r && x / m == q
  {
    var d := x / m - q;
    assert m * (x / m) + x % m == x;
    assert m * d == r - x % m by {
      assert m * d == m * (x / m) - m * q;
    }
    MultipleIsFar(m, d);
  }

  lemma MultipleIsFar(m: int, d: int)
    requires m > 0
    ensures d == 0 ==> m * d == 0
    ensures d > 0 ==> m * d >= m
    ensures d < 0 ==> m * d <= -m
  {
    if d > 0 {
      ProductNonNegative(m, d - 1);
      assert m * d == m + m * (d - 1);
    } else if d < 0 {
      ProductNonNegative(m, -d - 1);
      assert m * d == -m - m * (-d - 1);
    }
  }

  lemma RemaindersDiffer(m: nat, n: nat, p: nat)
    requires m < n < m + p
    ensures m % p != n % p
  {
    if m % p == n % p {
      var d := n / p - m / p;
      QuotientsDiffer(m, n, p, d);
      MultipleIsFar(p, d);
    }
  }

  lemma {:induction false} MaskKeepsAll(x: nat, k: nat)
    requires x < Pow2(k)
    ensures And(x, Pow2(k) - 1) == x
  {
    if x != 0 {
      MaskKeepsAll(x / 2, k - 1);
      assert (Pow2(k) - 1) / 2 == Pow2(k - 1) - 1;
    }
  }

  lemma MaskedDiffer(m: nat, n: nat, k: nat)
    requires m < n < m + Pow2(k)
    ensures And(n, Pow2(k) - 1) < Pow2(k)
    ensures And(m, Pow2(k) - 1) != And(n, Pow2(k) - 1)
  {
    MaskIsRemainder(m, k);
    MaskIsRemainder(n, k);
    RemaindersDiffer(m, n, Pow2(k));
  }

  lemma QuotientsDiffer(m: nat, n: nat, p: nat, d: int)
    requires p > 0 && m % p == n % p && d == n / p - m / p
    ensures p * d == n - m
  {
    assert m == p * (m / p) + m % p;
    assert n == p * (n / p) + n % p;
    assert p * d == p * (n / p) - p * (m / p);
  }

  lemma {:induction false} ProductNonNegative(m: nat, d: nat)
    ensures m * d >= 0
  {
    if d > 0 {
      ProductNonNegative(m, d - 1);
      assert m * d == m * (d - 1) + m;
    }
  }

  /** Masking with a power of two less one is taking the remainder. */
  lemma {:induction false} MaskIsRemainder(x: nat, k: nat)
    ensures And(x, Pow2(k) - 1) == x % Pow2(k)
  {
    var p := Pow2(k);
    if x == 0 || k == 0 {
      assert And(x, p - 1) == 0;
    } else {
      MaskIsRemainder(x / 2, k - 1);
      RemainderByHalves(x, Pow2(k - 1));
      assert (p - 1) / 2 == Pow2(k - 1) - 1 && (p - 1) % 2 == 1;
    }
  }

  lemma RemainderByHalves(x: nat, h: nat)
    requires h > 0
    ensures x % (2 * h) == 2 * ((x / 2) % h) + x % 2
  {
    var q, r := (x / 2) / h, (x / 2) % h;
    assert x / 2 == h * q + r;
    assert 2 * h * q == 2 * (h * q);
    ModUnique(x, 2 * h, q, 2 * r + x % 2);
  }
}
