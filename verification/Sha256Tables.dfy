/**
  * The constants of sha256.c against their origin (FIPS 180-4, sections 4.2.2 and 5.3.3): the first
  * 32 bits of the fractional parts of the cube roots of the first 64 primes, and of the square
  * roots of the first eight.
  */
module Sha256Tables {
  import opened Bits
  import opened Sha256

  // ---- The first 64 primes ----

  predicate Prime(n: nat) { n >= 2 && forall d :: 2 <= d < n ==> n % d != 0 }

  // The first 64 primes, eight to a row.

  const P0: seq<nat> := [2, 3, 5, 7, 11, 13, 17, 19]
  const P1: seq<nat> := [23, 29, 31, 37, 41, 43, 47, 53]
  const P2: seq<nat> := [59, 61, 67, 71, 73, 79, 83, 89]
  const P3: seq<nat> := [97, 101, 103, 107, 109, 113, 127, 131]
  const P4: seq<nat> := [137, 139, 149, 151, 157, 163, 167, 173]
  const P5: seq<nat> := [179, 181, 191, 193, 197, 199, 211, 223]
  const P6: seq<nat> := [227, 229, 233, 239, 241, 251, 257, 263]
  const P7: seq<nat> := [269, 271, 277, 281, 283, 293, 307, 311]
  const PRIME_ROWS: seq<seq<nat>> := [P0, P1, P2, P3, P4, P5, P6, P7]
  const PRIMES: seq<nat> := P0 + P1 + P2 + P3 + P4 + P5 + P6 + P7

  /** No small prime divides the number, unless it is one. */
  predicate Rough(n: nat) {
    n >= 2
    && (n in {2, 3, 5, 7, 11, 13, 17}
        || (n % 2 != 0 && n % 3 != 0 && n % 5 != 0 && n % 7 != 0 && n % 11 != 0 && n % 13 != 0 && n % 17 != 0))
  }

  lemma Multiple(n: nat, e: nat, p: nat)
    requires e > 0 && p > 0 && n % e == 0 && e % p == 0
    ensures n % p == 0
  {
    var k, l := n / e, e / p;
    assert n == e * k && e == p * l;
    assert n == p * (l * k);
    DivModUnique(n, p, l * k, 0);
  }

  /** A composite number below 324 is divided by a number below 18. */
  lemma SmallFactor(n: nat, d: nat) returns (e: nat)
    requires 2 <= d < n < 324 && n % d == 0
    ensures 2 <= e < 18 && e < n && n % e == 0
  {
    e := n / d;
    assert n == d * e;
    DivModUnique(n, e, d, 0);
    if e >= 18 {
      Above(d, e);
      e := d;
    }
  }

  lemma Above(d: nat, e: nat)
    requires e >= 18 && d * e < 324
    ensures d < 18
  {
  }

  lemma SmallDivides(n: nat, e: nat)
    requires 2 <= e < 18 && e < n && n % e == 0
    ensures !Rough(n)
  {
    var p := if e % 2 == 0 then 2 else if e % 3 == 0 then 3 else e;
    Multiple(n, e, p);
    assert p in {2, 3, 5, 7, 11, 13, 17};
  }

  lemma RoughPrime(n: nat)
    requires n < 324
    ensures Rough(n) <==> Prime(n)
  {
    if Rough(n) && !Prime(n) {
      var d :| 2 <= d < n && n % d == 0;
      var e := SmallFactor(n, d);
      SmallDivides(n, e);
      assert false;
    }
  }

  // The rough numbers below 312 are listed, row by row: beyond 3 each is one above or below a multiple of six.

  lemma Row0(n: nat)
    requires n < 23 && Rough(n)
    ensures n in P0
  {
    var q := n / 6;
    assert n < 4 || n == 6 * q + 1 || n == 6 * q + 5;
    assert q in {0, 1, 2, 3};
  }

  lemma Row1(n: nat)
    requires 23 <= n < 59 && Rough(n)
    ensures n in P1
  {
    var q := n / 6;
    assert n == 6 * q + 1 || n == 6 * q + 5;
    assert q in {3, 4, 5, 6, 7, 8, 9};
  }

  lemma Row2(n: nat)
    requires 59 <= n < 97 && Rough(n)
    ensures n in P2
  {
    var q := n / 6;
    assert n == 6 * q + 1 || n == 6 * q + 5;
    assert q in {9, 10, 11, 12, 13, 14, 15, 16};
  }

  lemma Row3(n: nat)
    requires 97 <= n < 137 && Rough(n)
    ensures n in P3
  {
    var q := n / 6;
    assert n == 6 * q + 1 || n == 6 * q + 5;
    assert q in {16, 17, 18, 19, 20, 21, 22};
  }

  lemma Row4(n: nat)
    requires 137 <= n < 179 && Rough(n)
    ensures n in P4
  {
    var q := n / 6;
    assert n == 6 * q + 1 || n == 6 * q + 5;
    assert q in {22, 23, 24, 25, 26, 27, 28, 29};
  }

  lemma Row5(n: nat)
    requires 179 <= n < 227 && Rough(n)
    ensures n in P5
  {
    var q := n / 6;
    assert n == 6 * q + 1 || n == 6 * q + 5;
    assert q in {29, 30, 31, 32, 33, 34, 35, 36, 37};
  }

  lemma Row6(n: nat)
    requires 227 <= n < 269 && Rough(n)
    ensures n in P6
  {
    var q := n / 6;
    assert n == 6 * q + 1 || n == 6 * q + 5;
    assert q in {37, 38, 39, 40, 41, 42, 43, 44};
  }

  lemma Row7(n: nat)
    requires 269 <= n < 312 && Rough(n)
    ensures n in P7
  {
    var q := n / 6;
    assert n == 6 * q + 1 || n == 6 * q + 5;
    assert q in {44, 45, 46, 47, 48, 49, 50, 51};
  }

  lemma ListedRough(r: nat, j: nat)
    requires r < 8 && j < 8
    ensures Rough(PRIME_ROWS[r][j])
  {
  }

  /** Eight rows of eight, end to end. */
  lemma Flat(rows: seq<seq<nat>>, t: nat)
    requires t < 64 && |rows| == 8 && forall i :: 0 <= i < 8 ==> |rows[i]| == 8
    ensures (rows[0] + rows[1] + rows[2] + rows[3] + rows[4] + rows[5] + rows[6] + rows[7])[t] == rows[t / 8][t % 8]
  {
    var half := rows[0] + rows[1] + rows[2] + rows[3];
    assert t < 32 ==> half[t] == rows[t / 8][t % 8];
    var q := t / 8;
    assert q in {0, 1, 2, 3, 4, 5, 6, 7};
  }

  lemma At(t: nat)
    requires t < 64
    ensures PRIMES[t] == PRIME_ROWS[t / 8][t % 8] && K[t] == K_ROWS[t / 8][t % 8]
  {
    Flat(PRIME_ROWS, t);
    Flat(K_ROWS, t);
  }

  ghost predicate Ascending(rows: seq<seq<nat>>) {
    && |rows| == 8
    && (forall r :: 0 <= r < 8 ==> |rows[r]| == 8 && forall i, j :: 0 <= i < j < 8 ==> rows[r][i] < rows[r][j])
    && (forall r, q :: 0 <= r < q < 8 ==> rows[r][7] < rows[q][0])
  }

  lemma RowsAscend()
    ensures Ascending(PRIME_ROWS)
  {
  }

  lemma FlatAscends(rows: seq<seq<nat>>, i: nat, j: nat)
    requires Ascending(rows) && i < j < 64
    ensures rows[i / 8][i % 8] < rows[j / 8][j % 8]
  {
    var r, q, x, y := i / 8, j / 8, i % 8, j % 8;
    if r < q {
      assert rows[r][x] <= rows[r][7] < rows[q][0] <= rows[q][y];
    } else {
      assert r == q && x < y;
    }
  }

  lemma Ascends(i: nat, j: nat)
    requires i < j < 64
    ensures PRIMES[i] < PRIMES[j]
  {
    At(i);
    At(j);
    RowsAscend();
    FlatAscends(PRIME_ROWS, i, j);
  }

  /** PRIMES lists exactly the primes up to 311, in order: the first 64. */
  lemma FirstPrimes(n: nat)
    ensures |PRIMES| == 64 && forall i, j :: 0 <= i < j < 64 ==> PRIMES[i] < PRIMES[j]
    ensures n < 312 ==> (Prime(n) <==> n in PRIMES)
  {
    hide Rough, Prime;
    forall i, j | 0 <= i < j < 64
      ensures PRIMES[i] < PRIMES[j]
    {
      Ascends(i, j);
    }
    if n < 312 {
      RoughPrime(n);
      if n in PRIMES {
        var t :| 0 <= t < 64 && PRIMES[t] == n;
        At(t);
        ListedRough(t / 8, t % 8);
      }
      if Rough(n) {
        RoughListed(n);
      }
    }
  }

  lemma RoughListed(n: nat)
    requires n < 312 && Rough(n)
    ensures n in PRIMES
  {
    hide Rough;
    if n < 23 { Row0(n); } else if n < 59 { Row1(n); } else if n < 97 { Row2(n); } else if n < 137 { Row3(n); }
    else if n < 179 { Row4(n); } else if n < 227 { Row5(n); } else if n < 269 { Row6(n); } else { Row7(n); }
  }

  // ---- The roots ----

  function Cube(n: nat): nat { n * n * n }

  const TWO96: nat := WORD * WORD * WORD

  /** k is the first 32 bits of the fractional part of the cube root of p, and c its whole part. */
  predicate CubeFraction(p: nat, c: nat, k: nat) { Cube(c * WORD + k) <= p * TWO96 < Cube(c * WORD + k + 1) }

  function CubeRoot(p: nat): nat {
    if p < 8 then 1 else if p < 27 then 2 else if p < 64 then 3 else if p < 125 then 4 else if p < 216 then 5 else 6
  }

  lemma CubeRootUnique(p: nat, c: nat)
    requires 2 <= p < 343 && Cube(c) <= p < Cube(c + 1)
    ensures c == CubeRoot(p)
  {
    if c >= 7 {
      CubeGrows(7, c);
    } else {
      assert c in {0, 1, 2, 3, 4, 5, 6};
    }
  }

  lemma CubeGrows(a: nat, b: nat)
    requires a <= b
    ensures Cube(a) <= Cube(b)
  {
    Products(a, b, a, b);
    Products(a * a, b * b, a, b);
  }

  lemma Products(a: nat, b: nat, x: nat, y: nat)
    requires a <= b && x <= y
    ensures a * x <= b * y
  {
    assert b * y == a * x + a * (y - x) + (b - a) * y;
  }

  lemma LowRows(r: nat, j: nat)
    requires r < 3 && j < 8
    ensures CubeFraction(PRIME_ROWS[r][j], CubeRoot(PRIME_ROWS[r][j]), K_ROWS[r][j]) && K_ROWS[r][j] < WORD
  {
  }

  lemma MiddleRows(r: nat, j: nat)
    requires 3 <= r < 6 && j < 8
    ensures CubeFraction(PRIME_ROWS[r][j], CubeRoot(PRIME_ROWS[r][j]), K_ROWS[r][j]) && K_ROWS[r][j] < WORD
  {
  }

  lemma HighRows(r: nat, j: nat)
    requires 6 <= r < 8 && j < 8
    ensures CubeFraction(PRIME_ROWS[r][j], CubeRoot(PRIME_ROWS[r][j]), K_ROWS[r][j]) && K_ROWS[r][j] < WORD
  {
  }

  /** Section 4.2.2: the round constants come from the cube roots of the first 64 primes. */
  lemma RoundConstants(t: nat, c: nat)
    requires t < 64 && Cube(c) <= PRIMES[t] < Cube(c + 1)
    ensures K[t] < WORD && CubeFraction(PRIMES[t], c, K[t])
  {
    hide CubeFraction, Cube;
    FirstPrimes(PRIMES[t]);
    At(t);
    At(63);
    PrimeRange(t);
    CubeRootUnique(PRIMES[t], c);
    if t < 24 {
      LowRows(t / 8, t % 8);
    } else if t < 48 {
      MiddleRows(t / 8, t % 8);
    } else {
      HighRows(t / 8, t % 8);
    }
  }

  lemma PrimeRange(t: nat)
    requires t < 64
    ensures 2 <= PRIMES[t] < 312
  {
    At(t);
    At(0);
    At(63);
    FirstPrimes(0);
    assert PRIMES[0] == 2 && PRIMES[63] == 311;
  }

  const TWO64: nat := WORD * WORD

  predicate SquareFraction(p: nat, c: nat, k: nat) {
    (c * WORD + k) * (c * WORD + k) <= p * TWO64 < (c * WORD + k + 1) * (c * WORD + k + 1)
  }

  /** Section 5.3.3: the initial hash value comes from the square roots of the first eight primes. */
  lemma InitialHash(i: nat, c: nat)
    requires i < 8 && c * c <= PRIMES[i] < (c + 1) * (c + 1)
    ensures INITIAL[i] < WORD && SquareFraction(PRIMES[i], c, INITIAL[i])
  {
    At(i);
    if c >= 5 {
      Products(5, c, 5, c);
    } else {
      assert c in {0, 1, 2, 3, 4};
    }
  }
}
