/** The bitwise operators on unsigned numbers, and what they mean arithmetically. */
module Bits {
  function Pow2(n: nat): (p: nat)
    ensures p >= 1
  {
    if n == 0 then 1 else 2 * Pow2(n - 1)
  }

  lemma Doubled(n: nat)
    ensures Pow2(n + 1) == 2 * Pow2(n)
  {
  }

  /** The bitwise and of two unsigned numbers. */
  function And(a: nat, b: nat): nat {
    if a == 0 || b == 0 then 0 else (if a % 2 == 1 && b % 2 == 1 then 1 else 0) + 2 * And(a / 2, b / 2)
  }

  /** For a power of two, masking with size - 1 is the remainder by size. */
  lemma {:induction false} MaskIsRemainder(h: nat, order: nat)
    ensures And(h, Pow2(order) - 1) == h % Pow2(order)
  {
    if order > 0 {
      var p := Pow2(order - 1);
      MaskIsRemainder(h / 2, order - 1);
      assert (2 * p - 1) / 2 == p - 1;
      EvenRemainder(h, p);
      if p == 1 {
        assert (h / 2) % 1 == 0;
      }
      AndZero(h / 2);
    } else {
      assert h % 1 == 0;
    }
  }

  lemma AndZero(a: nat)
    ensures And(a, 0) == 0
  {
  }

  lemma EvenRemainder(h: nat, p: nat)
    requires p >= 1
    ensures h % (2 * p) == h % 2 + 2 * (h / 2 % p)
  {
    var q, r := h / 2 / p, h / 2 % p;
    assert h / 2 == q * p + r;
    assert h == (2 * p) * q + (2 * r + h % 2);
    DivModUnique(h, 2 * p, q, 2 * r + h % 2);
  }

  lemma Grows(d: nat, k: nat)
    requires k >= 1
    ensures d * k >= d
  {
    assert d * k == d + d * (k - 1);
  }

  lemma DivModUnique(n: nat, d: nat, q: nat, r: nat)
    requires n == d * q + r && r < d
    ensures n % d == r && n / d == q
  {
    var q', r' := n / d, n % d;
    assert d * (q' - q) == r - r' && d * (q - q') == r' - r;
    if q' > q {
      Grows(d, q' - q);
    } else if q' < q {
      Grows(d, q - q');
    }
  }

  /** The bitwise or and exclusive or. */
  function Or(a: nat, b: nat): nat
    decreases a + b
  {
    if a == 0 then b else if b == 0 then a
    else (if a % 2 == 1 || b % 2 == 1 then 1 else 0) + 2 * Or(a / 2, b / 2)
  }

  function Xor(a: nat, b: nat): nat
    decreases a + b
  {
    if a == 0 then b else if b == 0 then a
    else (if a % 2 != b % 2 then 1 else 0) + 2 * Xor(a / 2, b / 2)
  }

  /** Numbers without a common bit are joined by adding them. */
  lemma {:induction false} OrIsSum(a: nat, b: nat, k: nat)
    requires b < Pow2(k)
    ensures Or(a * Pow2(k), b) == a * Pow2(k) + b
  {
    if a == 0 || k == 0 {
      assert a * Pow2(k) == 0 || b == 0;
    } else {
      var x := a * Pow2(k);
      assert x == 2 * (a * Pow2(k - 1));
      OrIsSum(a, b / 2, k - 1);
      if b == 0 {
      } else {
        assert x / 2 == a * Pow2(k - 1) && x % 2 == 0;
        assert x > 0;
      }
    }
  }

  lemma {:induction false} XorCancels(x: nat, r: nat)
    ensures Xor(Xor(x, r), r) == x
  {
    if x != 0 && r != 0 {
      XorCancels(x / 2, r / 2);
      var y := Xor(x, r);
      assert y / 2 == Xor(x / 2, r / 2);
      assert y == 0 ==> Xor(x / 2, r / 2) == 0 && x % 2 == r % 2;
    } else if r != 0 {
      XorSelf(r);
    }
  }

  lemma {:induction false} XorSelf(r: nat)
    ensures Xor(r, r) == 0
  {
    if r != 0 {
      XorSelf(r / 2);
    }
  }

  lemma {:induction false} XorBound(a: nat, b: nat, n: nat)
    requires a < Pow2(n) && b < Pow2(n)
    ensures Xor(a, b) < Pow2(n)
  {
    if a != 0 && b != 0 {
      XorBound(a / 2, b / 2, n - 1);
    }
  }

  lemma {:induction false} OrBound(a: nat, b: nat, n: nat)
    requires a < Pow2(n) && b < Pow2(n)
    ensures Or(a, b) < Pow2(n)
  {
    if a != 0 && b != 0 {
      OrBound(a / 2, b / 2, n - 1);
    }
  }

  // ---- 32-bit words ----

  const WORD: nat := 0x1_0000_0000

  lemma WordIsPow2()
    ensures Pow2(8) == 0x100 && Pow2(16) == 0x1_0000 && Pow2(24) == 0x100_0000 && Pow2(32) == WORD
  {
    assert Pow2(8) == 0x100;
    assert Pow2(16) == 0x1_0000;
    assert Pow2(24) == 0x100_0000;
  }

  /** Wrapping addition and subtraction. */
  function Plus(x: int, y: int): (r: nat)
    ensures r < WORD
  {
    (x + y) % WORD
  }

  function Minus(x: int, y: int): (r: nat)
    ensures r < WORD
  {
    (x - y) % WORD
  }

  function ShiftLeft(x: nat, k: nat): (r: nat)
    ensures r < WORD
  {
    x * Pow2(k) % WORD
  }

  function ShiftRight(x: nat, k: nat): nat {
    Shrinks(x, Pow2(k));
    x / Pow2(k)
  }

  lemma Shrinks(x: nat, d: nat)
    requires d >= 1
    ensures 0 <= x / d <= x
  {
    var q, r := x / d, x % d;
    assert x == q * d + r;
    Grows(q, d);
  }

  lemma Shifted(x: nat)
    ensures x < 0x100_0000 ==> ShiftLeft(x, 8) == 0x100 * x
    ensures x < 0x1_0000 ==> ShiftLeft(x, 16) == 0x1_0000 * x
    ensures x < 0x100 ==> ShiftLeft(x, 24) == 0x100_0000 * x
  {
    hide Pow2;
    WordIsPow2();
  }

  /** Joining with a literal power of two. */
  lemma OrAdds(a: nat, b: nat, k: nat, p: nat)
    requires p == Pow2(k) && b < p
    ensures Or(a * p, b) == a * p + b
  {
    OrIsSum(a, b, k);
  }

  /** Joining above low bits that only one side has. */
  lemma OrAbove4(a: nat, b: nat, x: nat)
    requires x < 4
    ensures Or(4 * a + x, 4 * b) == 4 * Or(a, b) + x
  {
    hide Or;
    OrStep(2 * a + x / 2, 2 * b, x % 2);
    OrStep(2 * a, 2 * b, x);
    OrStep(a, b, x / 2);
  }

  lemma OrAbove16(a: nat, b: nat, x: nat)
    requires x < 16
    ensures Or(16 * a + x, 16 * b) == 16 * Or(a, b) + x
  {
    hide Or;
    OrAbove4(4 * a + x / 4, 4 * b, x % 4);
    OrAbove4(a, b, x / 4);
  }

  lemma OrStep(a: nat, b: nat, x: nat)
    ensures Or(2 * a + x, 2 * b) == x % 2 + 2 * Or(a + x / 2, b)
  {
    hide Or;
    OrParts(2 * a + x, 2 * b);
    assert (2 * a + x) / 2 == a + x / 2 && 2 * b / 2 == b && (2 * a + x) % 2 == x % 2;
  }

  lemma OrZero(a: nat)
    ensures Or(a, 0) == a && Or(0, a) == a
  {
  }

  /** The recursive equation also where an argument is zero. */
  lemma OrParts(a: nat, b: nat)
    ensures Or(a, b) == (if a % 2 == 1 || b % 2 == 1 then 1 else 0) + 2 * Or(a / 2, b / 2)
  {
    if a == 0 {
      OrZero(b / 2);
    } else if b == 0 {
      OrZero(a / 2);
    }
  }

  lemma XorZero(a: nat)
    ensures Xor(a, 0) == a && Xor(0, a) == a
  {
  }

  lemma XorParts(a: nat, b: nat)
    ensures Xor(a, b) == (if a % 2 != b % 2 then 1 else 0) + 2 * Xor(a / 2, b / 2)
  {
    if a == 0 {
      XorZero(b / 2);
      XorZero(b);
    } else if b == 0 {
      XorZero(a / 2);
    }
  }
}
