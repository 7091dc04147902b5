/** The functions of section 4.1.2 of FIPS 180-4, bit by bit. */
module Sha256Bits {
  import opened Bits
  import opened WordBits
  import opened Sha256

  /** ROTR: bit i of the result is bit i + n of the word, around its end. */
  lemma RotateBit(x: nat, n: nat, i: nat)
    requires x < WORD && 0 < n < 32 && i < 32
    ensures Bit(RotateRight(x, n), i) <==> Bit(x, (i + n) % 32)
  {
    hide Bit, Pow2, Or, ShiftLeft, ShiftRight;
    WordIsPow2();
    OrBit(ShiftRight(x, n), ShiftLeft(x, 32 - n), i);
    RightBit(x, n, i);
    LeftBit(x, 32 - n, i);
    if i + n >= 32 {
      HighBit(x, 32, i + n);
      assert (i + n) % 32 == i - (32 - n);
    }
  }

  /** Ch chooses: where x has a one, the bit of y, and elsewhere the bit of z. */
  lemma ChBit(x: nat, y: nat, z: nat, i: nat)
    requires x < WORD && i < 32
    ensures Bit(Ch(x, y, z), i) <==> if Bit(x, i) then Bit(y, i) else Bit(z, i)
  {
    hide Bit, Xor, And, Pow2;
    WordIsPow2();
    XorBit(And(x, y), And(Not(x), z), i);
    AndBit(x, y, i);
    AndBit(Not(x), z, i);
    NotBit(x, 32, i);
  }

  /** Maj has a one where at least two of the three words have one. */
  lemma MajBit(x: nat, y: nat, z: nat, i: nat)
    ensures Bit(Maj(x, y, z), i)
       <==> (Bit(x, i) && Bit(y, i)) || (Bit(x, i) && Bit(z, i)) || (Bit(y, i) && Bit(z, i))
  {
    hide Bit, Xor, And;
    XorBit(Xor(And(x, y), And(x, z)), And(y, z), i);
    XorBit(And(x, y), And(x, z), i);
    AndBit(x, y, i);
    AndBit(x, z, i);
    AndBit(y, z, i);
  }

  predicate Odd3(a: bool, b: bool, c: bool) { (a != b) != c }

  lemma SigmaBit(a: nat, b: nat, c: nat, i: nat)
    ensures Bit(Xor(Xor(a, b), c), i) <==> Odd3(Bit(a, i), Bit(b, i), Bit(c, i))
  {
    hide Bit, Xor;
    XorBit(Xor(a, b), c, i);
    XorBit(a, b, i);
  }

  /** The four sigma functions: exclusive or of rotations by 2, 13, 22; 6, 11, 25; and so on. */
  lemma SigmaBits(x: nat, i: nat)
    requires x < WORD && i < 32
    ensures Bit(Ep0(x), i) <==> Odd3(Bit(x, (i + 2) % 32), Bit(x, (i + 13) % 32), Bit(x, (i + 22) % 32))
    ensures Bit(Ep1(x), i) <==> Odd3(Bit(x, (i + 6) % 32), Bit(x, (i + 11) % 32), Bit(x, (i + 25) % 32))
    ensures Bit(Sig0(x), i) <==> Odd3(Bit(x, (i + 7) % 32), Bit(x, (i + 18) % 32), Bit(x, i + 3))
    ensures Bit(Sig1(x), i) <==> Odd3(Bit(x, (i + 17) % 32), Bit(x, (i + 19) % 32), Bit(x, i + 10))
  {
    hide Bit, Xor, RotateRight, ShiftRight, Odd3;
    forall n | n in {2, 13, 22, 6, 11, 25, 7, 18, 17, 19}
      ensures Bit(RotateRight(x, n), i) <==> Bit(x, (i + n) % 32)
    {
      RotateBit(x, n, i);
    }
    RightBit(x, 3, i);
    RightBit(x, 10, i);
    SigmaBit(RotateRight(x, 2), RotateRight(x, 13), RotateRight(x, 22), i);
    SigmaBit(RotateRight(x, 6), RotateRight(x, 11), RotateRight(x, 25), i);
    SigmaBit(RotateRight(x, 7), RotateRight(x, 18), ShiftRight(x, 3), i);
    SigmaBit(RotateRight(x, 17), RotateRight(x, 19), ShiftRight(x, 10), i);
  }
}
