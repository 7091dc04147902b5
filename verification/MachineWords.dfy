/** Numbers below 2^32 as machine words: the operators of module Bits are the machine's. */
module MachineWords {
  import opened Bits
  import opened WordBits

  type word = bv32

  function Join(low: bool, high: word): word { (if low then 1 else 0) | (high << 1) }
  function WXor(x: word, y: word): word { x ^ y }
  function WAnd(x: word, y: word): word { x & y }
  function WOr(x: word, y: word): word { x | y }
  function WPlus(x: word, y: word): word { x + y }
  function Half(x: word): word { x >> 1 }
  function Double(x: word): word { x << 1 }

  /** The low k bits of a number, as a machine word. */
  function Low(n: nat, k: nat): (w: word) {
    if k == 0 then 0 else Join(n % 2 == 1, Low(n / 2, k - 1))
  }

  function W(n: nat): word { Low(n, 32) }

  // ---- Bitwise operators ----

  lemma JoinXor(u: bool, v: bool, x: word, y: word)
    ensures WXor(Join(u, x), Join(v, y)) == Join(u != v, WXor(x, y))
  {
  }

  lemma JoinAnd(u: bool, v: bool, x: word, y: word)
    ensures WAnd(Join(u, x), Join(v, y)) == Join(u && v, WAnd(x, y))
  {
  }

  lemma JoinOr(u: bool, v: bool, x: word, y: word)
    ensures WOr(Join(u, x), Join(v, y)) == Join(u || v, WOr(x, y))
  {
  }

  lemma NoBits()
    ensures WXor(0, 0) == 0 && WAnd(0, 0) == 0 && WOr(0, 0) == 0 && Join(false, 0) == 0
  {
  }

  lemma {:induction false} LowXor(a: nat, b: nat, k: nat)
    ensures Low(Xor(a, b), k) == WXor(Low(a, k), Low(b, k))
  {
    hide Xor, Join, WXor, WAnd, WOr;
    NoBits();
    if k > 0 {
      XorHalves(a, b);
      LowXor(a / 2, b / 2, k - 1);
      JoinXor(a % 2 == 1, b % 2 == 1, Low(a / 2, k - 1), Low(b / 2, k - 1));
    }
  }

  lemma {:induction false} LowAnd(a: nat, b: nat, k: nat)
    ensures Low(And(a, b), k) == WAnd(Low(a, k), Low(b, k))
  {
    hide And, Join, WXor, WAnd, WOr;
    NoBits();
    if k > 0 {
      AndParts(a, b);
      LowAnd(a / 2, b / 2, k - 1);
      JoinAnd(a % 2 == 1, b % 2 == 1, Low(a / 2, k - 1), Low(b / 2, k - 1));
    }
  }

  lemma {:induction false} LowOr(a: nat, b: nat, k: nat)
    ensures Low(Or(a, b), k) == WOr(Low(a, k), Low(b, k))
  {
    hide Or, Join, WXor, WAnd, WOr;
    NoBits();
    if k > 0 {
      OrHalves(a, b);
      LowOr(a / 2, b / 2, k - 1);
      JoinOr(a % 2 == 1, b % 2 == 1, Low(a / 2, k - 1), Low(b / 2, k - 1));
    }
  }

  // ---- Shifts ----

  /** Bits above the highest of a number are zero. */
  lemma {:induction false} LowEnough(n: nat, j: nat, k: nat)
    requires n < Pow2(j) && j <= k
    ensures Low(n, k) == Low(n, j)
  {
    hide Join, WXor, WAnd, WOr;
    NoBits();
    if j > 0 {
      LowEnough(n / 2, j - 1, k - 1);
    } else if k > 0 {
      assert n == 0;
      LowEnough(0, 0, k - 1);
    }
  }

  lemma {:induction false} LowRemainder(n: nat, k: nat)
    ensures Low(n % Pow2(k), k) == Low(n, k)
  {
    hide Join;
    if k > 0 {
      var r := n % Pow2(k);
      EvenRemainder(n, Pow2(k - 1));
      assert r % 2 == n % 2 && r / 2 == n / 2 % Pow2(k - 1);
      LowRemainder(n / 2, k - 1);
    }
  }

  function Ones(k: nat): word {
    if k == 0 then 0 else Join(true, Ones(k - 1))
  }

  lemma {:induction false} LowMasked(n: nat, k: nat, j: nat)
    requires k <= j
    ensures Low(n, k) == WAnd(Low(n, j), Ones(k))
  {
    hide Join, WAnd;
    if k > 0 {
      LowMasked(n / 2, k - 1, j - 1);
      JoinAnd(n % 2 == 1, true, Low(n / 2, j - 1), Ones(k - 1));
    } else {
      AndZero(Low(n, j));
    }
  }

  lemma AndZero(x: word)
    ensures WAnd(x, 0) == 0
  {
  }

  lemma AllOnes()
    ensures Ones(8) == 0xff && Ones(31) == 0x7fff_ffff && Ones(32) == 0xffff_ffff
  {
    assert Ones(8) == 0xff;
    assert Ones(16) == 0xffff;
    assert Ones(24) == 0xff_ffff;
  }

  lemma Halves(u: bool, x: word)
    ensures Half(Join(u, WAnd(x, 0x7fff_ffff))) == WAnd(x, 0x7fff_ffff)
    ensures Join(false, WAnd(x, 0x7fff_ffff)) == Double(x)
  {
  }

  /** The number counts only modulo 2^32. */
  lemma Wraps(n: nat)
    ensures W(n % WORD) == W(n)
  {
    hide Low, Pow2;
    WordIsPow2();
    LowRemainder(n, 32);
  }

  /** Doubling drops the highest of 32 bits. */
  lemma DoubleWord(n: nat)
    ensures W(2 * n) == Double(W(n))
  {
    hide Join, Double, WAnd, Half;
    hide Ones;
    AllOnes();
    LowMasked(n, 31, 32);
    Halves(false, W(n));
  }

  lemma HalfWord(n: nat)
    requires n < WORD
    ensures W(n / 2) == Half(W(n))
  {
    hide Join, Double, WAnd, Half;
    WordIsPow2();
    LowEnough(n / 2, 31, 32);
    hide Pow2, Ones;
    AllOnes();
    LowMasked(n / 2, 31, 31);
    Halves(n % 2 == 1, Low(n / 2, 31));
  }

  function Lefts(x: word, k: nat): word { if k == 0 then x else Double(Lefts(x, k - 1)) }
  function Rights(x: word, k: nat): word { if k == 0 then x else Half(Rights(x, k - 1)) }

  lemma {:induction false} WordLefts(n: nat, k: nat)
    ensures W(n * Pow2(k)) == Lefts(W(n), k)
  {
    hide W, Double;
    if k == 0 {
      assert n * Pow2(0) == n;
    } else {
      WordLefts(n, k - 1);
      assert n * Pow2(k) == 2 * (n * Pow2(k - 1));
      DoubleWord(n * Pow2(k - 1));
    }
  }

  lemma {:induction false} WordRights(n: nat, k: nat)
    requires n < WORD
    ensures W(ShiftRight(n, k)) == Rights(W(n), k)
  {
    hide W, Half;
    if k == 0 {
      assert n / Pow2(0) == n;
    } else {
      WordRights(n, k - 1);
      Shrinks(n, Pow2(k - 1));
      HalfLast(n, Pow2(k - 1));
      HalfWord(n / Pow2(k - 1));
    }
  }

  lemma HalfLast(n: nat, p: nat)
    requires p > 0
    ensures n / (2 * p) == n / p / 2
  {
    var q, r := n / p, n % p;
    assert n == p * q + r;
    assert n == (2 * p) * (q / 2) + (p * (q % 2) + r);
    assert p * (q % 2) + r < 2 * p;
    DivModUnique(n, 2 * p, q / 2, p * (q % 2) + r);
  }

  lemma WordLeft(n: nat, k: nat)
    ensures W(ShiftLeft(n, k)) == Lefts(W(n), k)
  {
    hide W, Lefts, Pow2;
    WordLefts(n, k);
    Wraps(n * Pow2(k));
  }

  lemma {:induction false} ShiftsSum(x: word, a: nat, b: nat)
    ensures Lefts(x, a + b) == Lefts(Lefts(x, a), b) && Rights(x, a + b) == Rights(Rights(x, a), b)
  {
    hide Double, Half;
    if b > 0 {
      ShiftsSum(x, a, b - 1);
    }
  }

  lemma Binary(k: nat)
    requires k < 32
    ensures k == k % 2 + (k / 2 % 2 * 2 + k / 4 % 2 * 4 + k / 8 % 2 * 8 + k / 16 % 2 * 16)
    ensures k % 2 in {0, 1} && k / 2 % 2 in {0, 1} && k / 4 % 2 in {0, 1} && k / 8 % 2 in {0, 1} && k / 16 % 2 in {0, 1}
  {
  }

  function Shl2(x: word): word { x << 2 }
  function Shl4(x: word): word { x << 4 }
  function Shl8(x: word): word { x << 8 }
  function Shl16(x: word): word { x << 16 }

  lemma ShlTwice(x: word)
    ensures Double(Double(x)) == Shl2(x)
  {
  }

  lemma ShlTwice2(x: word)
    ensures Shl2(Shl2(x)) == Shl4(x)
  {
  }

  lemma ShlTwice4(x: word)
    ensures Shl4(Shl4(x)) == Shl8(x)
  {
  }

  lemma ShlTwice8(x: word)
    ensures Shl8(Shl8(x)) == Shl16(x)
  {
  }

  lemma LeftsPowers(x: word)
    ensures Lefts(x, 0) == x && Lefts(x, 1) == Double(x) && Lefts(x, 2) == Shl2(x)
  {
    hide Double, Shl2;
    ShlTwice(x);
  }

  lemma LeftsPowers4(x: word)
    ensures Lefts(x, 4) == Shl4(x)
  {
    hide Lefts, Double, Shl2, Shl4;
    ShiftsSum(x, 2, 2);
    LeftsPowers(x);
    LeftsPowers(Shl2(x));
    ShlTwice2(x);
  }

  lemma LeftsPowers8(x: word)
    ensures Lefts(x, 8) == Shl8(x)
  {
    hide Lefts, Double, Shl4, Shl8;
    ShiftsSum(x, 4, 4);
    LeftsPowers4(x);
    LeftsPowers4(Shl4(x));
    ShlTwice4(x);
  }

  lemma LeftsPowers16(x: word)
    ensures Lefts(x, 16) == Shl16(x)
  {
    hide Lefts, Double, Shl8, Shl16;
    ShiftsSum(x, 8, 8);
    LeftsPowers8(x);
    LeftsPowers8(Shl8(x));
    ShlTwice8(x);
  }

  function ShlStages(x: word, one: bool, two: bool, four: bool, eight: bool, sixteen: bool): word {
    var x1 := if one then Double(x) else x;
    var x2 := if two then Shl2(x1) else x1;
    var x4 := if four then Shl4(x2) else x2;
    var x8 := if eight then Shl8(x4) else x4;
    if sixteen then Shl16(x8) else x8
  }

  lemma LeftsInStages(x: word, e: nat, d: nat, c: nat, b: nat, a: nat)
    requires e in {0, 1} && d in {0, 2} && c in {0, 4} && b in {0, 8} && a in {0, 16}
    ensures Lefts(x, e + (d + (c + (b + a)))) == ShlStages(x, e == 1, d == 2, c == 4, b == 8, a == 16)
  {
    hide Lefts, Double, Shl2, Shl4, Shl8, Shl16;
    var x1 := Lefts(x, e);
    var x2 := Lefts(x1, d);
    var x4 := Lefts(x2, c);
    var x8 := Lefts(x4, b);
    ShiftsSum(x, e, d + (c + (b + a)));
    ShiftsSum(x1, d, c + (b + a));
    ShiftsSum(x2, c, b + a);
    ShiftsSum(x4, b, a);
    LeftsPowers(x);
    LeftsPowers(x1);
    LeftsPowers(x2);
    LeftsPowers(x4);
    LeftsPowers(x8);
    LeftsPowers4(x2);
    LeftsPowers8(x4);
    LeftsPowers16(x8);
  }

  /** The machine's shift, in steps of powers of two. */
  function ShlBy(x: word, k: nat): word {
    ShlStages(x, k % 2 == 1, k / 2 % 2 == 1, k / 4 % 2 == 1, k / 8 % 2 == 1, k / 16 % 2 == 1)
  }

  lemma LeftsBy(x: word, k: nat)
    requires k < 32
    ensures Lefts(x, k) == ShlBy(x, k)
  {
    hide Lefts, ShlStages;
    Binary(k);
    LeftsInStages(x, k % 2, k / 2 % 2 * 2, k / 4 % 2 * 4, k / 8 % 2 * 8, k / 16 % 2 * 16);
  }

  function Shr2(x: word): word { x >> 2 }
  function Shr4(x: word): word { x >> 4 }
  function Shr8(x: word): word { x >> 8 }
  function Shr16(x: word): word { x >> 16 }

  lemma ShrTwice(x: word)
    ensures Half(Half(x)) == Shr2(x)
  {
  }

  lemma ShrTwice2(x: word)
    ensures Shr2(Shr2(x)) == Shr4(x)
  {
  }

  lemma ShrTwice4(x: word)
    ensures Shr4(Shr4(x)) == Shr8(x)
  {
  }

  lemma ShrTwice8(x: word)
    ensures Shr8(Shr8(x)) == Shr16(x)
  {
  }

  lemma RightsPowers(x: word)
    ensures Rights(x, 0) == x && Rights(x, 1) == Half(x) && Rights(x, 2) == Shr2(x)
  {
    hide Half, Shr2;
    ShrTwice(x);
  }

  lemma RightsPowers4(x: word)
    ensures Rights(x, 4) == Shr4(x)
  {
    hide Rights, Half, Shr2, Shr4;
    ShiftsSum(x, 2, 2);
    RightsPowers(x);
    RightsPowers(Shr2(x));
    ShrTwice2(x);
  }

  lemma RightsPowers8(x: word)
    ensures Rights(x, 8) == Shr8(x)
  {
    hide Rights, Half, Shr4, Shr8;
    ShiftsSum(x, 4, 4);
    RightsPowers4(x);
    RightsPowers4(Shr4(x));
    ShrTwice4(x);
  }

  lemma RightsPowers16(x: word)
    ensures Rights(x, 16) == Shr16(x)
  {
    hide Rights, Half, Shr8, Shr16;
    ShiftsSum(x, 8, 8);
    RightsPowers8(x);
    RightsPowers8(Shr8(x));
    ShrTwice8(x);
  }

  function ShrStages(x: word, one: bool, two: bool, four: bool, eight: bool, sixteen: bool): word {
    var x1 := if one then Half(x) else x;
    var x2 := if two then Shr2(x1) else x1;
    var x4 := if four then Shr4(x2) else x2;
    var x8 := if eight then Shr8(x4) else x4;
    if sixteen then Shr16(x8) else x8
  }

  lemma RightsInStages(x: word, e: nat, d: nat, c: nat, b: nat, a: nat)
    requires e in {0, 1} && d in {0, 2} && c in {0, 4} && b in {0, 8} && a in {0, 16}
    ensures Rights(x, e + (d + (c + (b + a)))) == ShrStages(x, e == 1, d == 2, c == 4, b == 8, a == 16)
  {
    hide Rights, Half, Shr2, Shr4, Shr8, Shr16;
    var x1 := Rights(x, e);
    var x2 := Rights(x1, d);
    var x4 := Rights(x2, c);
    var x8 := Rights(x4, b);
    ShiftsSum(x, e, d + (c + (b + a)));
    ShiftsSum(x1, d, c + (b + a));
    ShiftsSum(x2, c, b + a);
    ShiftsSum(x4, b, a);
    RightsPowers(x);
    RightsPowers(x1);
    RightsPowers(x2);
    RightsPowers(x4);
    RightsPowers(x8);
    RightsPowers4(x2);
    RightsPowers8(x4);
    RightsPowers16(x8);
  }

  /** The machine's shift, in steps of powers of two. */
  function ShrBy(x: word, k: nat): word {
    ShrStages(x, k % 2 == 1, k / 2 % 2 == 1, k / 4 % 2 == 1, k / 8 % 2 == 1, k / 16 % 2 == 1)
  }

  lemma RightsBy(x: word, k: nat)
    requires k < 32
    ensures Rights(x, k) == ShrBy(x, k)
  {
    hide Rights, ShrStages;
    Binary(k);
    RightsInStages(x, k % 2, k / 2 % 2 * 2, k / 4 % 2 * 4, k / 8 % 2 * 8, k / 16 % 2 * 16);
  }

  // ---- Complement and addition ----

  lemma {:induction false} LowNot(n: nat, k: nat)
    requires n < Pow2(k)
    ensures Low(Pow2(k) - 1 - n, k) == WXor(Low(n, k), Ones(k))
  {
    hide Join, WXor, WAnd, WOr;
    NoBits();
    if k > 0 {
      var y := Pow2(k) - 1 - n;
      assert y % 2 != n % 2 && y / 2 == Pow2(k - 1) - 1 - n / 2;
      LowNot(n / 2, k - 1);
      JoinXor(n % 2 == 1, true, Low(n / 2, k - 1), Ones(k - 1));
    }
  }

  function Sum(x: word, y: word, c: bool): word { if c then x + y + 1 else x + y }

  lemma JoinOne(x: word)
    ensures Join(true, x) == x + x + 1
  {
  }

  lemma JoinNone(x: word)
    ensures Join(false, x) == x + x
  {
  }

  predicate Carry(u: bool, v: bool, c: bool) { (u && v) || (u && c) || (v && c) }

  lemma SumNone(x: word, y: word)
    ensures Sum(Join(false, x), Join(false, y), false) == Join(false, Sum(x, y, false))
  {
    JoinNone(x);
    JoinNone(y);
    JoinNone(x + y);
    hide Join;
  }

  lemma SumFirst(x: word, y: word)
    ensures Sum(Join(true, x), Join(false, y), false) == Join(true, Sum(x, y, false))
  {
    JoinOne(x);
    JoinNone(y);
    JoinOne(x + y);
    hide Join;
  }

  lemma SumSecond(x: word, y: word)
    ensures Sum(Join(false, x), Join(true, y), false) == Join(true, Sum(x, y, false))
  {
    JoinNone(x);
    JoinOne(y);
    JoinOne(x + y);
    hide Join;
  }

  lemma SumCarry(x: word, y: word)
    ensures Sum(Join(false, x), Join(false, y), true) == Join(true, Sum(x, y, false))
  {
    JoinNone(x);
    JoinNone(y);
    JoinOne(x + y);
    hide Join;
  }

  lemma SumBoth(x: word, y: word)
    ensures Sum(Join(true, x), Join(true, y), false) == Join(false, Sum(x, y, true))
  {
    JoinOne(x);
    JoinOne(y);
    JoinNone(x + y + 1);
    hide Join;
  }

  lemma SumSecondCarry(x: word, y: word)
    ensures Sum(Join(false, x), Join(true, y), true) == Join(false, Sum(x, y, true))
  {
    JoinNone(x);
    JoinOne(y);
    JoinNone(x + y + 1);
    hide Join;
  }

  lemma SumFirstCarry(x: word, y: word)
    ensures Sum(Join(true, x), Join(false, y), true) == Join(false, Sum(x, y, true))
  {
    JoinOne(x);
    JoinNone(y);
    JoinNone(x + y + 1);
    hide Join;
  }

  lemma SumThree(x: word, y: word)
    ensures Sum(Join(true, x), Join(true, y), true) == Join(true, Sum(x, y, true))
  {
    JoinOne(x);
    JoinOne(y);
    JoinOne(x + y + 1);
    hide Join;
  }

  lemma JoinSum(u: bool, v: bool, c: bool, x: word, y: word)
    ensures Sum(Join(u, x), Join(v, y), c) == Join((u != v) != c, Sum(x, y, Carry(u, v, c)))
  {
    hide Sum, Join;
    SumNone(x, y);
    SumFirst(x, y);
    SumSecond(x, y);
    SumCarry(x, y);
    SumBoth(x, y);
    SumFirstCarry(x, y);
    SumSecondCarry(x, y);
    SumThree(x, y);
  }

  /** The machine's adder, with a carry into the lowest bit. */
  lemma {:induction false} LowSum(a: nat, b: nat, c: bool, k: nat)
    ensures Low(a + b + (if c then 1 else 0), k) == WAnd(Sum(Low(a, k), Low(b, k), c), Ones(k))
  {
    hide Join, WAnd, Sum;
    AndZero(Sum(0, 0, c));
    if k > 0 {
      var u, v := a % 2 == 1, b % 2 == 1;
      var n := a + b + (if c then 1 else 0);
      assert n % 2 == 1 <==> (u != v) != c;
      assert n / 2 == a / 2 + b / 2 + (if Carry(u, v, c) then 1 else 0);
      LowSum(a / 2, b / 2, Carry(u, v, c), k - 1);
      JoinSum(u, v, c, Low(a / 2, k - 1), Low(b / 2, k - 1));
      JoinAnd((u != v) != c, true, Sum(Low(a / 2, k - 1), Low(b / 2, k - 1), Carry(u, v, c)), Ones(k - 1));
    }
  }

  lemma WordAnd(a: nat, b: nat)
    ensures W(And(a, b)) == WAnd(W(a), W(b))
  {
    hide Low, And, WAnd;
    LowAnd(a, b, 32);
  }

  lemma WordXor(a: nat, b: nat)
    ensures W(Xor(a, b)) == WXor(W(a), W(b))
  {
    hide Low, Xor, WXor;
    LowXor(a, b, 32);
  }

  lemma WordOr(a: nat, b: nat)
    ensures W(Or(a, b)) == WOr(W(a), W(b))
  {
    hide Low, Or, WOr;
    LowOr(a, b, 32);
  }

  lemma WholeSum(x: word, y: word)
    ensures WAnd(Sum(x, y, false), 0xffff_ffff) == WPlus(x, y)
  {
  }

  lemma WordSum(a: nat, b: nat)
    ensures W(a + b) == WPlus(W(a), W(b))
  {
    hide Low, WAnd, WPlus, Sum, Ones;
    LowSum(a, b, false, 32);
    AllOnes();
    WholeSum(W(a), W(b));
  }

  /** Wrapping addition is the machine's. */
  lemma WordPlus(a: nat, b: nat)
    ensures W(Plus(a, b)) == WPlus(W(a), W(b))
  {
    hide W, WPlus;
    Wraps(a + b);
    WordSum(a, b);
  }

  lemma WordNot(n: nat)
    requires n < WORD
    ensures W(WORD - 1 - n) == WXor(W(n), 0xffff_ffff)
  {
    hide Low, WXor, Ones, Pow2;
    WordIsPow2();
    LowNot(n, 32);
    AllOnes();
  }

  // ---- The number of a machine word ----

  function Digit(w: word, m: word, p: nat): nat { if w & m == m then p else 0 }

  /** The number in the lowest four bits. */
  function Nibble(w: word): nat { Digit(w, 1, 1) + Digit(w, 2, 2) + Digit(w, 4, 4) + Digit(w, 8, 8) }

  function NumberOf(w: word): nat {
    Nibble(w) + 0x10 * Nibble(w >> 4) + 0x100 * Nibble(w >> 8) + 0x1000 * Nibble(w >> 12)
    + 0x1_0000 * Nibble(w >> 16) + 0x10_0000 * Nibble(w >> 20) + 0x100_0000 * Nibble(w >> 24) + 0x1000_0000 * Nibble(w >> 28)
  }

  function Bits4(b0: bool, b1: bool, b2: bool, b3: bool): nat {
    (if b0 then 1 else 0) + (if b1 then 2 else 0) + (if b2 then 4 else 0) + (if b3 then 8 else 0)
  }

  lemma NibbleJoined(b0: bool, b1: bool, b2: bool, b3: bool, x: word)
    ensures Nibble(Join(b0, Join(b1, Join(b2, Join(b3, x))))) == Bits4(b0, b1, b2, b3)
  {
  }

  lemma LowStep(n: nat, k: nat)
    ensures Low(n, k + 1) == Join(n % 2 == 1, Low(n / 2, k))
  {
  }

  lemma LowFour(n: nat, k: nat)
    ensures Low(n, k + 4)
         == Join(n % 2 == 1, Join(n / 2 % 2 == 1, Join(n / 4 % 2 == 1, Join(n / 8 % 2 == 1, Low(n / 16, k)))))
  {
    hide Join;
    LowStep(n, k + 3);
    LowStep(n / 2, k + 2);
    LowStep(n / 4, k + 1);
    LowStep(n / 8, k);
    assert n / 2 / 2 == n / 4 && n / 4 / 2 == n / 8 && n / 8 / 2 == n / 16;
  }

  lemma FourBits(n: nat)
    ensures n % 16 == Bits4(n % 2 == 1, n / 2 % 2 == 1, n / 4 % 2 == 1, n / 8 % 2 == 1)
  {
    EvenRemainder(n, 8);
    EvenRemainder(n / 2, 4);
    EvenRemainder(n / 4, 2);
    assert n / 2 / 2 == n / 4 && n / 4 / 2 == n / 8;
  }

  lemma LowestNibble(n: nat)
    ensures Nibble(W(n)) == n % 16
  {
    hide Join, Nibble, Low;
    LowFour(n, 28);
    FourBits(n);
    NibbleJoined(n % 2 == 1, n / 2 % 2 == 1, n / 4 % 2 == 1, n / 8 % 2 == 1, Low(n / 16, 28));
  }

  lemma NextNibbles(n: nat)
    requires n < WORD
    ensures W(n / 16) == Shr4(W(n))
  {
    hide W, Shr4;
    WordRights(n, 4);
    RightsPowers4(W(n));
    assert Pow2(4) == 16;
  }

  lemma Shifts4(w: word)
    ensures Shr4(w) == w >> 4 && Shr4(w >> 4) == w >> 8 && Shr4(w >> 8) == w >> 12 && Shr4(w >> 12) == w >> 16
    ensures Shr4(w >> 16) == w >> 20 && Shr4(w >> 20) == w >> 24 && Shr4(w >> 24) == w >> 28
  {
  }

  /** The number in the lowest k nibbles. */
  function Nibbles(w: word, k: nat): nat {
    if k == 0 then 0 else Nibble(w) + 16 * Nibbles(Shr4(w), k - 1)
  }

  lemma NibblesStep(w: word, k: nat)
    ensures Nibbles(w, k + 1) == Nibble(w) + 16 * Nibbles(Shr4(w), k)
    ensures Nibbles(w, 0) == 0
  {
  }

  lemma NumberIsNibbles(w: word)
    ensures NumberOf(w) == Nibbles(w, 8)
  {
    hide Nibble, Shr4;
    Shifts4(w);
    NibblesStep(w, 7);
    NibblesStep(w >> 4, 6);
    NibblesStep(w >> 8, 5);
    NibblesStep(w >> 12, 4);
    NibblesStep(w >> 16, 3);
    NibblesStep(w >> 20, 2);
    NibblesStep(w >> 24, 1);
    NibblesStep(w >> 28, 0);
  }

  lemma {:induction false} NibblesBack(n: nat, k: nat)
    requires n < WORD && n < Pow2(4 * k)
    ensures Nibbles(W(n), k) == n
  {
    hide W, Nibble, Shr4;
    if k > 0 {
      NextNibbles(n);
      LowestNibble(n);
      assert Pow2(4 * k) == 16 * Pow2(4 * (k - 1)) by {
        Sixteenfold(4 * (k - 1));
      }
      NibblesBack(n / 16, k - 1);
    }
  }

  lemma Sixteenfold(j: nat)
    ensures Pow2(j + 4) == 16 * Pow2(j)
  {
    hide Pow2;
    Doubled(j);
    Doubled(j + 1);
    Doubled(j + 2);
    Doubled(j + 3);
  }

  /** A number can be read off its word. */
  lemma NumberBack(n: nat)
    requires n < WORD
    ensures NumberOf(W(n)) == n
  {
    hide W, Nibble, Shr4, NumberOf, Nibbles, Pow2;
    WordIsPow2();
    NibblesBack(n, 8);
    NumberIsNibbles(W(n));
  }

  lemma NibbleDigits(w: word)
    ensures Nibble(w) < 16
    ensures (Nibble(w) % 2 == 1 <==> w & 1 == 1) && (Nibble(w) / 2 % 2 == 1 <==> w & 2 == 2)
    ensures (Nibble(w) / 4 % 2 == 1 <==> w & 4 == 4) && (Nibble(w) / 8 % 2 == 1 <==> w & 8 == 8)
  {
  }

  lemma JoinedNibble(w: word)
    ensures Join(w & 1 == 1, Join(w & 2 == 2, Join(w & 4 == 4, Join(w & 8 == 8, 0)))) == WAnd(w, 15)
  {
  }

  lemma WordOfNibble(w: word)
    ensures W(Nibble(w)) == WAnd(w, 15)
  {
    hide Join, Nibble, WAnd, Low;
    var n := Nibble(w);
    NibbleDigits(w);
    assert Pow2(4) == 16;
    LowEnough(n, 4, 32);
    LowFour(n, 0);
    LowNone(n / 16);
    JoinedNibble(w);
  }

  lemma LowNone(n: nat)
    ensures Low(n, 0) == 0
  {
  }

  /** No more than k nibbles of the word are used. */
  predicate Short(w: word, k: nat) { if k == 0 then w == 0 else Short(Shr4(w), k - 1) }

  lemma NibbleAndRest(w: word)
    ensures WPlus(Shl4(Shr4(w)), WAnd(w, 15)) == w
  {
  }

  lemma {:induction false} WordOfNibbles(w: word, k: nat)
    requires Short(w, k)
    ensures W(Nibbles(w, k)) == w
    decreases k
  {
    hide W, Nibble, Shr4, Shl4, WPlus, WAnd;
    if k == 0 {
      ZeroWord();
    } else {
      var m := Nibbles(Shr4(w), k - 1);
      WordOfNibbles(Shr4(w), k - 1);
      WordSum(16 * m, Nibble(w));
      WordLefts(m, 4);
      assert m * Pow2(4) == 16 * m by { assert Pow2(4) == 16; }
      LeftsPowers4(W(m));
      WordOfNibble(w);
      NibbleAndRest(w);
    }
  }

  lemma ZeroWord()
    ensures W(0) == 0
  {
    hide Low;
    LowEnough(0, 0, 32);
    LowNone(0);
  }

  lemma ShortStep(w: word, k: nat)
    ensures Short(w, k + 1) == Short(Shr4(w), k) && (Short(w, 0) <==> w == 0)
  {
  }

  lemma AllShort(w: word)
    ensures Short(w, 8)
  {
    hide Shr4;
    Shifts4(w);
    ShortStep(w, 7);
    ShortStep(w >> 4, 6);
    ShortStep(w >> 8, 5);
    ShortStep(w >> 12, 4);
    ShortStep(w >> 16, 3);
    ShortStep(w >> 20, 2);
    ShortStep(w >> 24, 1);
    NothingLeft(w);
  }

  lemma NothingLeft(w: word)
    ensures Short(w >> 28, 1)
  {
  }

  /** A word can be made from its number. */
  lemma WordBack(w: word)
    ensures W(NumberOf(w)) == w
  {
    hide W, Nibble, Shr4, NumberOf, Nibbles, Short;
    AllShort(w);
    WordOfNibbles(w, 8);
    NumberIsNibbles(w);
  }
}
