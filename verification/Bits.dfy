/** Bitwise operators of C on unsigned words, as functions of natural numbers. */
module Bits {

  /** The exclusive or of the last binary digits of a and b. */
  function Bit(a: nat, b: nat): nat {
    if a % 2 == b % 2 then 0 else 1
  }

  /** Bitwise exclusive or. */
  function Xor(a: nat, b: nat): nat
    decreases a + b
  {
    if a == 0 && b == 0 then 0 else 2 * Xor(a / 2, b / 2) + Bit(a, b)
  }

  /** Bitwise and. */
  function And(a: nat, b: nat): nat
    decreases a
  {
    if a == 0 then 0 else 2 * And(a / 2, b / 2) + (if a % 2 == 1 && b % 2 == 1 then 1 else 0)
  }

  function Pow2(n: nat): (r: nat)
    ensures r > 0
  {
    if n == 0 then 1 else 2 * Pow2(n - 1)
  }

  lemma {:induction false} XorComm(a: nat, b: nat)
    ensures Xor(a, b) == Xor(b, a)
    decreases a + b
  {
    if a != 0 || b != 0 {
      XorComm(a / 2, b / 2);
    }
  }

  lemma XorDigits(a: nat, b: nat)
    ensures Xor(a, b) == 2 * Xor(a / 2, b / 2) + Bit(a, b)
    ensures Xor(a, b) / 2 == Xor(a / 2, b / 2) && Xor(a, b) % 2 == Bit(a, b)
  {
  }

  lemma {:induction false} XorAssoc(a: nat, b: nat, c: nat)
    ensures Xor(Xor(a, b), c) == Xor(a, Xor(b, c))
    decreases a + b + c
  {
    if a == 0 && b == 0 && c == 0 {
    } else {
      var p, q := Xor(a, b), Xor(b, c);
      XorDigits(a, b);
      XorDigits(b, c);
      calc {
        Xor(p, c);
        { XorDigits(p, c); }
        2 * Xor(Xor(a / 2, b / 2), c / 2) + Bit(Bit(a, b), c);
        { XorAssoc(a / 2, b / 2, c / 2); }
        2 * Xor(a / 2, Xor(b / 2, c / 2)) + Bit(a, Bit(b, c));
        { XorDigits(a, q); }
        Xor(a, q);
      }
    }
  }

  lemma {:induction false} XorZero(a: nat)
    ensures Xor(a, 0) == a && Xor(0, a) == a
  {
    if a != 0 {
      XorZero(a / 2);
    }
  }

  lemma {:induction false} XorSelf(a: nat)
    ensures Xor(a, a) == 0
  {
    if a != 0 {
      XorSelf(a / 2);
    }
  }

  /** The identity that lets one cell hold two links: either neighbour recovers the other. */
  lemma XorCancel(a: nat, b: nat)
    ensures Xor(Xor(a, b), b) == a && Xor(a, Xor(a, b)) == b
  {
    XorAssoc(a, b, b);
    XorAssoc(a, a, b);
    XorSelf(a);
    XorSelf(b);
    XorZero(a);
    XorZero(b);
  }

  lemma {:induction false} XorBound(a: nat, b: nat, n: nat)
    requires a < Pow2(n) && b < Pow2(n)
    ensures Xor(a, b) < Pow2(n)
  {
    if n != 0 {
      XorBound(a / 2, b / 2, n - 1);
    }
  }

  lemma {:induction false} AndBound(a: nat, b: nat)
    ensures And(a, b) <= b
    decreases a
  {
    if a != 0 {
      AndBound(a / 2, b / 2);
    }
  }

  lemma {:induction false} AndZero(a: nat)
    ensures And(a, 0) == 0
  {
    if a != 0 {
      AndZero(a / 2);
    }
  }

  lemma AndMultipleOfFour(a: nat, b: nat)
    ensures And(4 * a, b) % 4 == 0
  {
    AndTwice(a, 2 * a, 4 * a, b);
    FourDivides(And(4 * a, b), And(a, b / 2 / 2));
  }

  lemma AndTwice(a: nat, c: nat, e: nat, b: nat)
    requires c == 2 * a && e == 2 * c
    ensures And(e, b) == 4 * And(a, b / 2 / 2)
  {
    AndEven(c, e, b);
    AndEven(a, c, b / 2);
  }

  lemma FourDivides(m: nat, n: nat)
    requires m == 4 * n
    ensures m % 4 == 0
  {
  }

  lemma AndEven(a: nat, c: nat, b: nat)
    requires c == 2 * a
    ensures And(c, b) == 2 * And(a, b / 2)
  {
    assert c / 2 == a && c % 2 == 0;
  }

  lemma Pow2Values()
    ensures Pow2(2) == 4 && Pow2(8) == 0x100 && Pow2(16) == 0x1_0000 && Pow2(32) == 0x1_0000_0000
  {
    assert Pow2(8) == 0x100;
    assert Pow2(16) == 0x1_0000;
    assert Pow2(24) == 0x100_0000;
  }

  lemma Twice(p: nat, v: nat)
    ensures 2 * p * v == 2 * (p * v)
  {
  }

  lemma {:induction false} Pow2Add(m: nat, n: nat)
    ensures Pow2(m + n) == Pow2(m) * Pow2(n)
  {
    if n > 0 {
      Pow2Add(m, n - 1);
      assert m + n - 1 == m + (n - 1);
    }
  }

  lemma MultipleGrows(p: int, z: int)
    requires p >= 0
    ensures z >= 1 ==> p * z >= p
    ensures z <= -1 ==> p * z <= -p
  {
    if z >= 1 {
      assert p * z == p * (z - 1) + p;
    } else if z <= -1 {
      assert p * z == p * (z + 1) - p;
    }
  }

  lemma ModUnique(a: nat, p: nat, k: nat, r: nat)
    requires r < p && a == p * k + r
    ensures a % p == r
  {
    var q: int, m: int, n: int := a / p, p, k;
    assert m * (q - n) == m * q - m * n;
    MultipleGrows(m, q - n);
  }

  lemma Distribute(p: nat, q: nat, n: nat, s: nat)
    ensures p * (q * n + s) == p * q * n + p * s
  {
  }

  lemma ModSplit(a: nat, p: nat, q: nat)
    requires p > 0 && q > 0
    ensures p * q > 0 && a % (p * q) % p == a % p
  {
    MultipleGrows(p, q);
    var n, r := a / (p * q), a % (p * q);
    Distribute(p, q, n, r / p);
    ModUnique(a, p, q * n + r / p, r % p);
  }

  lemma ModDouble(m: nat, p: nat)
    requires p > 0
    ensures m % (2 * p) == 2 * (m / 2 % p) + m % 2
  {
    var h := m / 2;
    assert h == p * (h / p) + h % p;
    assert 2 * (p * (h / p)) == 2 * p * (h / p);
    ModUnique(m, 2 * p, h / p, 2 * (h % p) + m % 2);
  }

  /** A mask of k ones keeps the number modulo the k-th power of two. */
  lemma {:induction false} AndMask(m: nat, k: nat)
    ensures And(m, Pow2(k) - 1) == m % Pow2(k)
    decreases k
  {
    if k == 0 {
      assert Pow2(0) == 1;
      AndZero(m);
    } else {
      var p := Pow2(k - 1);
      AndMask(m / 2, k - 1);
      ModDouble(m, p);
      assert (Pow2(k) - 1) / 2 == p - 1 && (Pow2(k) - 1) % 2 == 1;
    }
  }

  lemma AndFour(a: nat, b: nat)
    ensures And(4 * a, 4 * b) == 4 * And(a, b)
  {
    AndTwice(a, 2 * a, 4 * a, 4 * b);
    assert 4 * b / 2 / 2 == b;
  }
}
