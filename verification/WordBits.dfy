/** The operators of module Bits, bit by bit. */
module WordBits {
  import opened Bits

  /** Bit i of a number, counted from the lowest. */
  predicate Bit(x: nat, i: nat) {
    if i == 0 then x % 2 == 1 else Bit(x / 2, i - 1)
  }

  lemma {:induction false} AndBit(a: nat, b: nat, i: nat)
    ensures Bit(And(a, b), i) <==> Bit(a, i) && Bit(b, i)
  {
    AndParts(a, b);
    if i > 0 {
      AndBit(a / 2, b / 2, i - 1);
    }
  }

  lemma AndParts(a: nat, b: nat)
    ensures And(a, b) % 2 == (if a % 2 == 1 && b % 2 == 1 then 1 else 0) && And(a, b) / 2 == And(a / 2, b / 2)
  {
  }

  lemma XorHalves(a: nat, b: nat)
    ensures Xor(a, b) % 2 == (if a % 2 != b % 2 then 1 else 0) && Xor(a, b) / 2 == Xor(a / 2, b / 2)
  {
    hide Xor;
    XorParts(a, b);
  }

  lemma OrHalves(a: nat, b: nat)
    ensures Or(a, b) % 2 == (if a % 2 == 1 || b % 2 == 1 then 1 else 0) && Or(a, b) / 2 == Or(a / 2, b / 2)
  {
    hide Or;
    OrParts(a, b);
  }

  lemma {:induction false} OrBit(a: nat, b: nat, i: nat)
    ensures Bit(Or(a, b), i) <==> Bit(a, i) || Bit(b, i)
  {
    hide Or;
    OrParts(a, b);
    if i > 0 {
      OrBit(a / 2, b / 2, i - 1);
    }
  }

  lemma {:induction false} XorBit(a: nat, b: nat, i: nat)
    ensures Bit(Xor(a, b), i) <==> Bit(a, i) != Bit(b, i)
  {
    hide Xor;
    XorParts(a, b);
    if i > 0 {
      XorBit(a / 2, b / 2, i - 1);
    }
  }

  lemma {:induction false} NotBit(x: nat, n: nat, i: nat)
    requires x < Pow2(n) && i < n
    ensures Bit(Pow2(n) - 1 - x, i) <==> !Bit(x, i)
  {
    var y := Pow2(n) - 1 - x;
    assert y % 2 != x % 2 && y / 2 == Pow2(n - 1) - 1 - x / 2;
    if i > 0 {
      NotBit(x / 2, n - 1, i - 1);
    }
  }

  lemma {:induction false} HighBit(x: nat, n: nat, i: nat)
    requires x < Pow2(n) && n <= i
    ensures !Bit(x, i)
  {
    if n > 0 {
      HighBit(x / 2, n - 1, i - 1);
    } else if i > 0 {
      HighBit(0, 0, i - 1);
    }
  }

  lemma {:induction false} RightBit(x: nat, k: nat, i: nat)
    ensures Bit(ShiftRight(x, k), i) <==> Bit(x, i + k)
  {
    if k == 0 {
      assert x / Pow2(0) == x;
    } else {
      HalfFirst(x, Pow2(k - 1));
      RightBit(x / 2, k - 1, i);
    }
  }

  lemma HalfFirst(x: nat, p: nat)
    requires p > 0
    ensures x / (2 * p) == x / 2 / p
  {
    var q, r := x / 2 / p, x / 2 % p;
    assert x / 2 == p * q + r;
    assert x == (2 * p) * q + (2 * r + x % 2);
    DivModUnique(x, 2 * p, q, 2 * r + x % 2);
  }

  lemma {:induction false} TimesBit(x: nat, k: nat, i: nat)
    ensures Bit(x * Pow2(k), i) <==> i >= k && Bit(x, i - k)
  {
    if k == 0 {
      assert x * Pow2(0) == x;
    } else {
      var y := x * Pow2(k - 1);
      assert x * Pow2(k) == 2 * y;
      if i > 0 {
        TimesBit(x, k - 1, i - 1);
      }
    }
  }

  lemma {:induction false} RemainderBit(x: nat, n: nat, i: nat)
    requires i < n
    ensures Bit(x % Pow2(n), i) <==> Bit(x, i)
  {
    EvenRemainder(x, Pow2(n - 1));
    var r := x % Pow2(n);
    assert r % 2 == x % 2 && r / 2 == x / 2 % Pow2(n - 1);
    if i > 0 {
      RemainderBit(x / 2, n - 1, i - 1);
    }
  }

  lemma LeftBit(x: nat, k: nat, i: nat)
    requires i < 32
    ensures Bit(ShiftLeft(x, k), i) <==> i >= k && Bit(x, i - k)
  {
    hide Bit, Pow2;
    WordIsPow2();
    RemainderBit(x * Pow2(k), 32, i);
    TimesBit(x, k, i);
  }

  /** Words are their bits. */
  lemma {:induction false} BitsDetermine(x: nat, y: nat, n: nat)
    requires x < Pow2(n) && y < Pow2(n) && forall i :: 0 <= i < n ==> (Bit(x, i) <==> Bit(y, i))
    ensures x == y
  {
    if n > 0 {
      assert Bit(x, 0) <==> Bit(y, 0);
      forall i | 0 <= i < n - 1
        ensures Bit(x / 2, i) <==> Bit(y / 2, i)
      {
        assert Bit(x, i + 1) <==> Bit(y, i + 1);
      }
      BitsDetermine(x / 2, y / 2, n - 1);
    }
  }
}
