/** A known answer for module Sha256: the digest of "abc", computed on machine words. */
module Sha256Vectors {
  import opened Bytes
  import opened Bits
  import opened MachineWords
  import opened Sha256
  import Sha256Tables

  // ---- The functions of section 4.1.2 on machine words ----

  datatype State = State(a: word, b: word, c: word, d: word, e: word, f: word, g: word, h: word)

  // Rotations to the right.

  function R2(x: word): word { (x >> 2) | (x << 30) }
  function R6(x: word): word { (x >> 6) | (x << 26) }
  function R7(x: word): word { (x >> 7) | (x << 25) }
  function R11(x: word): word { (x >> 11) | (x << 21) }
  function R13(x: word): word { (x >> 13) | (x << 19) }
  function R17(x: word): word { (x >> 17) | (x << 15) }
  function R18(x: word): word { (x >> 18) | (x << 14) }
  function R19(x: word): word { (x >> 19) | (x << 13) }
  function R22(x: word): word { (x >> 22) | (x << 10) }
  function R25(x: word): word { (x >> 25) | (x << 7) }
  function S3(x: word): word { x >> 3 }
  function S10(x: word): word { x >> 10 }

  function Sigma0(x: word): word { WXor(WXor(R2(x), R13(x)), R22(x)) }
  function Sigma1(x: word): word { WXor(WXor(R6(x), R11(x)), R25(x)) }
  function Small0(x: word): word { WXor(WXor(R7(x), R18(x)), S3(x)) }
  function Small1(x: word): word { WXor(WXor(R17(x), R19(x)), S10(x)) }
  function Choose(x: word, y: word, z: word): word { WXor(WAnd(x, y), WAnd(WXor(x, 0xffff_ffff), z)) }
  function Majority(x: word, y: word, z: word): word { WXor(WXor(WAnd(x, y), WAnd(x, z)), WAnd(y, z)) }

  function Turn(v: State, k: word, w: word): State {
    var t1 := WPlus(WPlus(WPlus(WPlus(v.h, Sigma1(v.e)), Choose(v.e, v.f, v.g)), k), w);
    var t2 := WPlus(Sigma0(v.a), Majority(v.a, v.b, v.c));
    State(WPlus(t1, t2), v.a, v.b, v.c, WPlus(v.d, t1), v.e, v.f, v.g)
  }

  function Rotated(x: word, n: nat): word
    requires 0 < n < 32
  {
    WOr(ShrBy(x, n), ShlBy(x, 32 - n))
  }

  lemma RotateWord(x: nat, n: nat)
    requires x < WORD && 0 < n < 32
    ensures W(RotateRight(x, n)) == Rotated(W(x), n)
  {
    hide W, Or, ShiftRight, ShiftLeft, Lefts, Rights, ShlBy, ShrBy, WOr;
    WordOr(ShiftRight(x, n), ShiftLeft(x, 32 - n));
    WordRights(x, n);
    WordLeft(x, 32 - n);
    RightsBy(W(x), n);
    LeftsBy(W(x), 32 - n);
  }

  lemma XorThree(x: nat, y: nat, z: nat)
    ensures W(Xor(Xor(x, y), z)) == WXor(WXor(W(x), W(y)), W(z))
  {
    hide W, Xor, WXor;
    WordXor(Xor(x, y), z);
    WordXor(x, y);
  }

  lemma Is2(x: word)
    ensures Rotated(x, 2) == R2(x)
  {
  }

  lemma Is6(x: word)
    ensures Rotated(x, 6) == R6(x)
  {
  }

  lemma Is7(x: word)
    ensures Rotated(x, 7) == R7(x)
  {
  }

  lemma Is11(x: word)
    ensures Rotated(x, 11) == R11(x)
  {
  }

  lemma Is13(x: word)
    ensures Rotated(x, 13) == R13(x)
  {
  }

  lemma Is17(x: word)
    ensures Rotated(x, 17) == R17(x)
  {
  }

  lemma Is18(x: word)
    ensures Rotated(x, 18) == R18(x)
  {
  }

  lemma Is19(x: word)
    ensures Rotated(x, 19) == R19(x)
  {
  }

  lemma Is22(x: word)
    ensures Rotated(x, 22) == R22(x)
  {
  }

  lemma Is25(x: word)
    ensures Rotated(x, 25) == R25(x)
  {
  }

  lemma IsShift3(x: word)
    ensures ShrBy(x, 3) == S3(x)
  {
  }

  lemma IsShift10(x: word)
    ensures ShrBy(x, 10) == S10(x)
  {
  }

  lemma Ep0Word(x: nat)
    requires x < WORD
    ensures W(Ep0(x)) == Sigma0(W(x))
  {
    hide W, Xor, RotateRight, ShiftRight, Rotated, ShrBy, WXor, Rights, R2, R13, R22;
    XorThree(RotateRight(x, 2), RotateRight(x, 13), RotateRight(x, 22));
    RotateWord(x, 2);
    Is2(W(x));
    RotateWord(x, 13);
    Is13(W(x));
    RotateWord(x, 22);
    Is22(W(x));
  }

  lemma Ep1Word(x: nat)
    requires x < WORD
    ensures W(Ep1(x)) == Sigma1(W(x))
  {
    hide W, Xor, RotateRight, ShiftRight, Rotated, ShrBy, WXor, Rights, R6, R11, R25;
    XorThree(RotateRight(x, 6), RotateRight(x, 11), RotateRight(x, 25));
    RotateWord(x, 6);
    Is6(W(x));
    RotateWord(x, 11);
    Is11(W(x));
    RotateWord(x, 25);
    Is25(W(x));
  }

  lemma Sig0Word(x: nat)
    requires x < WORD
    ensures W(Sig0(x)) == Small0(W(x))
  {
    hide W, Xor, RotateRight, ShiftRight, Rotated, ShrBy, WXor, Rights, R7, R18, S3;
    XorThree(RotateRight(x, 7), RotateRight(x, 18), ShiftRight(x, 3));
    RotateWord(x, 7);
    Is7(W(x));
    RotateWord(x, 18);
    Is18(W(x));
    WordRights(x, 3);
    RightsBy(W(x), 3);
    IsShift3(W(x));
  }

  lemma Sig1Word(x: nat)
    requires x < WORD
    ensures W(Sig1(x)) == Small1(W(x))
  {
    hide W, Xor, RotateRight, ShiftRight, Rotated, ShrBy, WXor, Rights, R17, R19, S10;
    XorThree(RotateRight(x, 17), RotateRight(x, 19), ShiftRight(x, 10));
    RotateWord(x, 17);
    Is17(W(x));
    RotateWord(x, 19);
    Is19(W(x));
    WordRights(x, 10);
    RightsBy(W(x), 10);
    IsShift10(W(x));
  }

  lemma ChWord(x: nat, y: nat, z: nat)
    requires x < WORD
    ensures W(Ch(x, y, z)) == Choose(W(x), W(y), W(z))
  {
    hide W, Xor, And, WXor, WAnd;
    WordXor(And(x, y), And(Not(x), z));
    WordAnd(x, y);
    WordAnd(Not(x), z);
    WordNot(x);
  }

  lemma MajWord(x: nat, y: nat, z: nat)
    ensures W(Maj(x, y, z)) == Majority(W(x), W(y), W(z))
  {
    hide W, Xor, And, WXor, WAnd;
    XorThree(And(x, y), And(x, z), And(y, z));
    WordAnd(x, y);
    WordAnd(x, z);
    WordAnd(y, z);
  }

  // ---- Rounds ----

  function Words(v: Vars): State { State(W(v.a), W(v.b), W(v.c), W(v.d), W(v.e), W(v.f), W(v.g), W(v.h)) }

  predicate Fit(v: Vars) {
    v.a < WORD && v.b < WORD && v.c < WORD && v.d < WORD && v.e < WORD && v.f < WORD && v.g < WORD && v.h < WORD
  }

  /** One round of section 6.2.2 is one turn of the machine. */
  lemma RoundWord(v: Vars, k: nat, w: nat)
    requires Fit(v)
    ensures Words(Round(v, k, w)) == Turn(Words(v), W(k), W(w)) && Fit(Round(v, k, w))
  {
    hide W, Ep0, Ep1, Ch, Maj, Plus, WPlus, Sigma0, Sigma1, Choose, Majority;
    var s1, c := Ep1(v.e), Ch(v.e, v.f, v.g);
    var t1 := Plus(Plus(Plus(Plus(v.h, s1), c), k), w);
    var s0, m := Ep0(v.a), Maj(v.a, v.b, v.c);
    WordPlus(v.h, s1);
    WordPlus(Plus(v.h, s1), c);
    WordPlus(Plus(Plus(v.h, s1), c), k);
    WordPlus(Plus(Plus(Plus(v.h, s1), c), k), w);
    WordPlus(s0, m);
    WordPlus(t1, Plus(s0, m));
    WordPlus(v.d, t1);
    Ep0Word(v.a);
    Ep1Word(v.e);
    ChWord(v.e, v.f, v.g);
    MajWord(v.a, v.b, v.c);
  }

  function Extended(a: word, b: word, c: word, d: word): word {
    WPlus(WPlus(WPlus(Small1(a), b), Small0(c)), d)
  }

  lemma ExtendWord(a: nat, b: nat, c: nat, d: nat)
    requires a < WORD && c < WORD
    ensures W(Plus(Plus(Plus(Sig1(a), b), Sig0(c)), d)) == Extended(W(a), W(b), W(c), W(d))
  {
    hide W, Sig0, Sig1, Plus, WPlus, Small0, Small1;
    WordPlus(Sig1(a), b);
    WordPlus(Plus(Sig1(a), b), Sig0(c));
    WordPlus(Plus(Plus(Sig1(a), b), Sig0(c)), d);
    Sig1Word(a);
    Sig0Word(c);
  }

  // ---- "abc" ----

  // The round constants and the message schedule as machine words, eight to a row.

  const CONSTANTS: seq<seq<word>> := [
    [0x428a2f98, 0x71374491, 0xb5c0fbcf, 0xe9b5dba5, 0x3956c25b, 0x59f111f1, 0x923f82a4, 0xab1c5ed5],
    [0xd807aa98, 0x12835b01, 0x243185be, 0x550c7dc3, 0x72be5d74, 0x80deb1fe, 0x9bdc06a7, 0xc19bf174],
    [0xe49b69c1, 0xefbe4786, 0x0fc19dc6, 0x240ca1cc, 0x2de92c6f, 0x4a7484aa, 0x5cb0a9dc, 0x76f988da],
    [0x983e5152, 0xa831c66d, 0xb00327c8, 0xbf597fc7, 0xc6e00bf3, 0xd5a79147, 0x06ca6351, 0x14292967],
    [0x27b70a85, 0x2e1b2138, 0x4d2c6dfc, 0x53380d13, 0x650a7354, 0x766a0abb, 0x81c2c92e, 0x92722c85],
    [0xa2bfe8a1, 0xa81a664b, 0xc24b8b70, 0xc76c51a3, 0xd192e819, 0xd6990624, 0xf40e3585, 0x106aa070],
    [0x19a4c116, 0x1e376c08, 0x2748774c, 0x34b0bcb5, 0x391c0cb3, 0x4ed8aa4a, 0x5b9cca4f, 0x682e6ff3],
    [0x748f82ee, 0x78a5636f, 0x84c87814, 0x8cc70208, 0x90befffa, 0xa4506ceb, 0xbef9a3f7, 0xc67178f2]]

  const MESSAGE: seq<seq<word>> := [
    [0x61626380, 0x00000000, 0x00000000, 0x00000000, 0x00000000, 0x00000000, 0x00000000, 0x00000000],
    [0x00000000, 0x00000000, 0x00000000, 0x00000000, 0x00000000, 0x00000000, 0x00000000, 0x00000018],
    [0x61626380, 0x000f0000, 0x7da86405, 0x600003c6, 0x3e9d7b78, 0x0183fc00, 0x12dcbfdb, 0xe2e2c38e],
    [0xc8215c1a, 0xb73679a2, 0xe5bc3909, 0x32663c5b, 0x9d209d67, 0xec8726cb, 0x702138a4, 0xd3b7973b],
    [0x93f5997f, 0x3b68ba73, 0xaff4ffc1, 0xf10a5c62, 0x0a8b3996, 0x72af830a, 0x9409e33e, 0x24641522],
    [0x9f47bf94, 0xf0a64f5a, 0x3e246a79, 0x27333ba3, 0x0c4763f2, 0x840abf27, 0x7a290d5d, 0x065c43da],
    [0xfb3e89cb, 0xcc7617db, 0xb9e66c34, 0xa9993667, 0x84badedd, 0xc21462bc, 0x1487472c, 0xb20f7a99],
    [0xef57b9cd, 0xebe6b238, 0x9fe3095e, 0x78bc8d4b, 0xa43fcf15, 0x668b2ff8, 0xeeaba2cc, 0x12b1edeb]]

  function Constant(t: nat): word
    requires t < 64
  {
    CONSTANTS[t / 8][t % 8]
  }

  function Message(t: nat): word
    requires t < 64
  {
    MESSAGE[t / 8][t % 8]
  }

  lemma Constants0(j: nat)
    requires j < 8
    ensures NumberOf(CONSTANTS[0][j]) == K_ROWS[0][j]
  {
  }

  lemma Constants1(j: nat)
    requires j < 8
    ensures NumberOf(CONSTANTS[1][j]) == K_ROWS[1][j]
  {
  }

  lemma Constants2(j: nat)
    requires j < 8
    ensures NumberOf(CONSTANTS[2][j]) == K_ROWS[2][j]
  {
  }

  lemma Constants3(j: nat)
    requires j < 8
    ensures NumberOf(CONSTANTS[3][j]) == K_ROWS[3][j]
  {
  }

  lemma Constants4(j: nat)
    requires j < 8
    ensures NumberOf(CONSTANTS[4][j]) == K_ROWS[4][j]
  {
  }

  lemma Constants5(j: nat)
    requires j < 8
    ensures NumberOf(CONSTANTS[5][j]) == K_ROWS[5][j]
  {
  }

  lemma Constants6(j: nat)
    requires j < 8
    ensures NumberOf(CONSTANTS[6][j]) == K_ROWS[6][j]
  {
  }

  lemma Constants7(j: nat)
    requires j < 8
    ensures NumberOf(CONSTANTS[7][j]) == K_ROWS[7][j]
  {
  }

  lemma ConstantWord(t: nat)
    requires t < 64
    ensures W(K[t]) == Constant(t)
  {
    hide W, NumberOf;
    WordBack(Constant(t));
    Sha256Tables.Flat(K_ROWS, t);
    ConstantRow(t / 8, t % 8);
  }

  lemma ConstantRow(r: nat, j: nat)
    requires r < 8 && j < 8
    ensures NumberOf(CONSTANTS[r][j]) == K_ROWS[r][j]
  {
    hide NumberOf;
    match r {
      case 0 => Constants0(j);
      case 1 => Constants1(j);
      case 2 => Constants2(j);
      case 3 => Constants3(j);
      case 4 => Constants4(j);
      case 5 => Constants5(j);
      case 6 => Constants6(j);
      case _ => Constants7(j);
    }
  }

  predicate NextIs(t: nat)
    requires 16 <= t < 64
  {
    Extended(Message(t - 2), Message(t - 7), Message(t - 15), Message(t - 16)) == Message(t)
  }

  lemma Extend2()
    ensures Extended(0x00000000, 0x00000000, 0x00000000, 0x61626380) == 0x61626380
    ensures Extended(0x00000018, 0x00000000, 0x00000000, 0x00000000) == 0x000f0000
    ensures Extended(0x61626380, 0x00000000, 0x00000000, 0x00000000) == 0x7da86405
    ensures Extended(0x000f0000, 0x00000000, 0x00000000, 0x00000000) == 0x600003c6
    ensures Extended(0x7da86405, 0x00000000, 0x00000000, 0x00000000) == 0x3e9d7b78
    ensures Extended(0x600003c6, 0x00000000, 0x00000000, 0x00000000) == 0x0183fc00
    ensures Extended(0x3e9d7b78, 0x00000018, 0x00000000, 0x00000000) == 0x12dcbfdb
    ensures Extended(0x0183fc00, 0x61626380, 0x00000000, 0x00000000) == 0xe2e2c38e
  {
  }

  lemma Next2()
    ensures NextIs(16) && NextIs(17) && NextIs(18) && NextIs(19) && NextIs(20) && NextIs(21) && NextIs(22) && NextIs(23)
  {
    hide Extended;
    Extend2();
  }

  lemma Extend3()
    ensures Extended(0x12dcbfdb, 0x000f0000, 0x00000000, 0x00000000) == 0xc8215c1a
    ensures Extended(0xe2e2c38e, 0x7da86405, 0x00000000, 0x00000000) == 0xb73679a2
    ensures Extended(0xc8215c1a, 0x600003c6, 0x00000000, 0x00000000) == 0xe5bc3909
    ensures Extended(0xb73679a2, 0x3e9d7b78, 0x00000000, 0x00000000) == 0x32663c5b
    ensures Extended(0xe5bc3909, 0x0183fc00, 0x00000000, 0x00000000) == 0x9d209d67
    ensures Extended(0x32663c5b, 0x12dcbfdb, 0x00000000, 0x00000000) == 0xec8726cb
    ensures Extended(0x9d209d67, 0xe2e2c38e, 0x00000018, 0x00000000) == 0x702138a4
    ensures Extended(0xec8726cb, 0xc8215c1a, 0x61626380, 0x00000018) == 0xd3b7973b
  {
  }

  lemma Next3()
    ensures NextIs(24) && NextIs(25) && NextIs(26) && NextIs(27) && NextIs(28) && NextIs(29) && NextIs(30) && NextIs(31)
  {
    hide Extended;
    Extend3();
  }

  lemma Extend4()
    ensures Extended(0x702138a4, 0xb73679a2, 0x000f0000, 0x61626380) == 0x93f5997f
    ensures Extended(0xd3b7973b, 0xe5bc3909, 0x7da86405, 0x000f0000) == 0x3b68ba73
    ensures Extended(0x93f5997f, 0x32663c5b, 0x600003c6, 0x7da86405) == 0xaff4ffc1
    ensures Extended(0x3b68ba73, 0x9d209d67, 0x3e9d7b78, 0x600003c6) == 0xf10a5c62
    ensures Extended(0xaff4ffc1, 0xec8726cb, 0x0183fc00, 0x3e9d7b78) == 0x0a8b3996
    ensures Extended(0xf10a5c62, 0x702138a4, 0x12dcbfdb, 0x0183fc00) == 0x72af830a
    ensures Extended(0x0a8b3996, 0xd3b7973b, 0xe2e2c38e, 0x12dcbfdb) == 0x9409e33e
    ensures Extended(0x72af830a, 0x93f5997f, 0xc8215c1a, 0xe2e2c38e) == 0x24641522
  {
  }

  lemma Next4()
    ensures NextIs(32) && NextIs(33) && NextIs(34) && NextIs(35) && NextIs(36) && NextIs(37) && NextIs(38) && NextIs(39)
  {
    hide Extended;
    Extend4();
  }

  lemma Extend5()
    ensures Extended(0x9409e33e, 0x3b68ba73, 0xb73679a2, 0xc8215c1a) == 0x9f47bf94
    ensures Extended(0x24641522, 0xaff4ffc1, 0xe5bc3909, 0xb73679a2) == 0xf0a64f5a
    ensures Extended(0x9f47bf94, 0xf10a5c62, 0x32663c5b, 0xe5bc3909) == 0x3e246a79
    ensures Extended(0xf0a64f5a, 0x0a8b3996, 0x9d209d67, 0x32663c5b) == 0x27333ba3
    ensures Extended(0x3e246a79, 0x72af830a, 0xec8726cb, 0x9d209d67) == 0x0c4763f2
    ensures Extended(0x27333ba3, 0x9409e33e, 0x702138a4, 0xec8726cb) == 0x840abf27
    ensures Extended(0x0c4763f2, 0x24641522, 0xd3b7973b, 0x702138a4) == 0x7a290d5d
    ensures Extended(0x840abf27, 0x9f47bf94, 0x93f5997f, 0xd3b7973b) == 0x065c43da
  {
  }

  lemma Next5()
    ensures NextIs(40) && NextIs(41) && NextIs(42) && NextIs(43) && NextIs(44) && NextIs(45) && NextIs(46) && NextIs(47)
  {
    hide Extended;
    Extend5();
  }

  lemma Extend6()
    ensures Extended(0x7a290d5d, 0xf0a64f5a, 0x3b68ba73, 0x93f5997f) == 0xfb3e89cb
    ensures Extended(0x065c43da, 0x3e246a79, 0xaff4ffc1, 0x3b68ba73) == 0xcc7617db
    ensures Extended(0xfb3e89cb, 0x27333ba3, 0xf10a5c62, 0xaff4ffc1) == 0xb9e66c34
    ensures Extended(0xcc7617db, 0x0c4763f2, 0x0a8b3996, 0xf10a5c62) == 0xa9993667
    ensures Extended(0xb9e66c34, 0x840abf27, 0x72af830a, 0x0a8b3996) == 0x84badedd
    ensures Extended(0xa9993667, 0x7a290d5d, 0x9409e33e, 0x72af830a) == 0xc21462bc
    ensures Extended(0x84badedd, 0x065c43da, 0x24641522, 0x9409e33e) == 0x1487472c
    ensures Extended(0xc21462bc, 0xfb3e89cb, 0x9f47bf94, 0x24641522) == 0xb20f7a99
  {
  }

  lemma Next6()
    ensures NextIs(48) && NextIs(49) && NextIs(50) && NextIs(51) && NextIs(52) && NextIs(53) && NextIs(54) && NextIs(55)
  {
    hide Extended;
    Extend6();
  }

  lemma Extend7()
    ensures Extended(0x1487472c, 0xcc7617db, 0xf0a64f5a, 0x9f47bf94) == 0xef57b9cd
    ensures Extended(0xb20f7a99, 0xb9e66c34, 0x3e246a79, 0xf0a64f5a) == 0xebe6b238
    ensures Extended(0xef57b9cd, 0xa9993667, 0x27333ba3, 0x3e246a79) == 0x9fe3095e
    ensures Extended(0xebe6b238, 0x84badedd, 0x0c4763f2, 0x27333ba3) == 0x78bc8d4b
    ensures Extended(0x9fe3095e, 0xc21462bc, 0x840abf27, 0x0c4763f2) == 0xa43fcf15
    ensures Extended(0x78bc8d4b, 0x1487472c, 0x7a290d5d, 0x840abf27) == 0x668b2ff8
    ensures Extended(0xa43fcf15, 0xb20f7a99, 0x065c43da, 0x7a290d5d) == 0xeeaba2cc
    ensures Extended(0x668b2ff8, 0xef57b9cd, 0xfb3e89cb, 0x065c43da) == 0x12b1edeb
  {
  }

  lemma Next7()
    ensures NextIs(56) && NextIs(57) && NextIs(58) && NextIs(59) && NextIs(60) && NextIs(61) && NextIs(62) && NextIs(63)
  {
    hide Extended;
    Extend7();
  }

  /** "abc" and its padding. */
  const BLOCK: seq<byte> := [0x61, 0x62, 0x63, 0x80] + Zeros(59) + [24]

  lemma BlockIsPadded()
    ensures Padded(Chars("abc")) == BLOCK
  {
    WordIsPow2();
    assert Pow2(40) == WORD * Pow2(8) && Pow2(48) == WORD * Pow2(16) && Pow2(56) == WORD * Pow2(24);
    hide Pow2;
    assert Octet(24, 0) == 24;
  }

  lemma BlockAt(i: nat)
    requires i < 64
    ensures BLOCK[i] == if i == 0 then 0x61 else if i == 1 then 0x62 else if i == 2 then 0x63 else if i == 3 then 0x80
      else if i == 63 then 24 else 0
  {
  }

  lemma FirstMessages(t: nat)
    requires t < 16
    ensures Message(t) == if t == 0 then 0x6162_6380 else if t == 15 then 24 else 0
  {
  }

  lemma FirstWords(t: nat)
    requires t < 16
    ensures NumberOf(Message(t)) == Schedule(BLOCK, t)
  {
    hide NumberOf, Message, Schedule;
    Numbers();
    FirstMessages(t);
    ScheduleStart(BLOCK, t);
    BlockAt(4 * t);
    BlockAt(4 * t + 1);
    BlockAt(4 * t + 2);
    BlockAt(4 * t + 3);
  }

  lemma Numbers()
    ensures NumberOf(0) == 0 && NumberOf(0x6162_6380) == 0x6162_6380 && NumberOf(24) == 24
  {
  }

  lemma AllNext(t: nat)
    requires 16 <= t < 64
    ensures NextIs(t)
  {
    hide NextIs;
    Next2();
    Next3();
    Next4();
    Next5();
    Next6();
    Next7();
  }

  lemma ScheduleFits(t: nat)
    ensures Schedule(BLOCK, t) < WORD
  {
  }

  lemma {:induction false} ScheduleWord(t: nat)
    requires t < 64
    ensures W(Schedule(BLOCK, t)) == Message(t)
  {
    hide W, NumberOf, Message, Extended, Schedule, Sig0, Sig1, Plus;
    if t < 16 {
      FirstWords(t);
      WordBack(Message(t));
    } else {
      ScheduleWord(t - 2);
      ScheduleWord(t - 7);
      ScheduleWord(t - 15);
      ScheduleWord(t - 16);
      ScheduleFits(t - 2);
      ScheduleFits(t - 15);
      ScheduleNext(BLOCK, t);
      ExtendWord(Schedule(BLOCK, t - 2), Schedule(BLOCK, t - 7), Schedule(BLOCK, t - 15), Schedule(BLOCK, t - 16));
      AllNext(t);
    }
  }

  // ---- Sixty-four rounds ----

  function Eight(s: State, k0: word, k1: word, k2: word, k3: word, k4: word, k5: word, k6: word, k7: word,
        w0: word, w1: word, w2: word, w3: word, w4: word, w5: word, w6: word, w7: word): State {
    var s4 := Turn(Turn(Turn(Turn(s, k0, w0), k1, w1), k2, w2), k3, w3);
    Turn(Turn(Turn(Turn(s4, k4, w4), k5, w5), k6, w6), k7, w7)
  }

  /** The working variables of "abc" after every eighth round. */
  const STATES: seq<State> := [
    State(0x6a09e667, 0xbb67ae85, 0x3c6ef372, 0xa54ff53a, 0x510e527f, 0x9b05688c, 0x1f83d9ab, 0x5be0cd19),
    State(0x85a07b5f, 0xe5030380, 0x2b4209f5, 0x04409a6a, 0x0c657a79, 0x9b27a401, 0x714260ad, 0x43ada245),
    State(0xb0fa238e, 0xc0645fde, 0xd932eb16, 0x87912990, 0x07590dcd, 0x0b92f20c, 0x745a48de, 0x1e578218),
    State(0xc5d53d8d, 0xa7a3623f, 0xc2606d6d, 0x9dc68b63, 0xaa47c347, 0x49f5114a, 0xe1257970, 0x8ada8930),
    State(0x73b33bf5, 0xea992a22, 0xa0060b30, 0x363482c9, 0xba591112, 0x0109ab3a, 0xade79437, 0x6112a3b7),
    State(0x79ea687a, 0x6dc57a8a, 0x34df1604, 0x41a65cb1, 0x1efbc0a0, 0xf0781bc8, 0xa507a53d, 0x0772a26b),
    State(0x4172328d, 0xa14c14b0, 0x72ab4b91, 0x26628815, 0xfecf0bc6, 0xd57b94a9, 0xb7755da1, 0xa80f11f0),
    State(0x38cc9913, 0x3ec45cdb, 0xf5702fdb, 0x101fd28f, 0x54cb266b, 0xe50e1b4f, 0x9f4787c3, 0x529e7d00),
    State(0x506e3058, 0xd39a2165, 0x04d24d6c, 0xb85e2ce9, 0x5ef50f24, 0xfb121210, 0x948d25b6, 0x961f4894)]

  lemma Turns0()
    ensures Eight(State(0x6a09e667, 0xbb67ae85, 0x3c6ef372, 0xa54ff53a, 0x510e527f, 0x9b05688c, 0x1f83d9ab, 0x5be0cd19),
                  0x428a2f98, 0x71374491, 0xb5c0fbcf, 0xe9b5dba5, 0x3956c25b, 0x59f111f1, 0x923f82a4, 0xab1c5ed5,
                  0x61626380, 0x00000000, 0x00000000, 0x00000000, 0x00000000, 0x00000000, 0x00000000, 0x00000000)
         == State(0x85a07b5f, 0xe5030380, 0x2b4209f5, 0x04409a6a, 0x0c657a79, 0x9b27a401, 0x714260ad, 0x43ada245)
  {
    var s := State(0x6a09e667, 0xbb67ae85, 0x3c6ef372, 0xa54ff53a, 0x510e527f, 0x9b05688c, 0x1f83d9ab, 0x5be0cd19);
    s := Turn(s, 0x428a2f98, 0x61626380);
    assert s.a == 0x5d6aebcd && s.e == 0xfa2a4622;
    s := Turn(s, 0x71374491, 0x00000000);
    assert s.a == 0x5a6ad9ad && s.e == 0x78ce7989;
    s := Turn(s, 0xb5c0fbcf, 0x00000000);
    assert s.a == 0xc8c347a7 && s.e == 0xf92939eb;
    s := Turn(s, 0xe9b5dba5, 0x00000000);
    assert s.a == 0xd550f666 && s.e == 0x24e00850;
    s := Turn(s, 0x3956c25b, 0x00000000);
    assert s.a == 0x04409a6a && s.e == 0x43ada245;
    s := Turn(s, 0x59f111f1, 0x00000000);
    assert s.a == 0x2b4209f5 && s.e == 0x714260ad;
    s := Turn(s, 0x923f82a4, 0x00000000);
    assert s.a == 0xe5030380 && s.e == 0x9b27a401;
    s := Turn(s, 0xab1c5ed5, 0x00000000);
    assert s.a == 0x85a07b5f && s.e == 0x0c657a79;
  }

  lemma Turns1()
    ensures Eight(State(0x85a07b5f, 0xe5030380, 0x2b4209f5, 0x04409a6a, 0x0c657a79, 0x9b27a401, 0x714260ad, 0x43ada245),
                  0xd807aa98, 0x12835b01, 0x243185be, 0x550c7dc3, 0x72be5d74, 0x80deb1fe, 0x9bdc06a7, 0xc19bf174,
                  0x00000000, 0x00000000, 0x00000000, 0x00000000, 0x00000000, 0x00000000, 0x00000000, 0x00000018)
         == State(0xb0fa238e, 0xc0645fde, 0xd932eb16, 0x87912990, 0x07590dcd, 0x0b92f20c, 0x745a48de, 0x1e578218)
  {
    var s := State(0x85a07b5f, 0xe5030380, 0x2b4209f5, 0x04409a6a, 0x0c657a79, 0x9b27a401, 0x714260ad, 0x43ada245);
    s := Turn(s, 0xd807aa98, 0x00000000);
    assert s.a == 0x8e04ecb9 && s.e == 0x32ca2d8c;
    s := Turn(s, 0x12835b01, 0x00000000);
    assert s.a == 0x8c87346b && s.e == 0x1cc92596;
    s := Turn(s, 0x243185be, 0x00000000);
    assert s.a == 0x4798a3f4 && s.e == 0x436b23e8;
    s := Turn(s, 0x550c7dc3, 0x00000000);
    assert s.a == 0xf71fc5a9 && s.e == 0x816fd6e9;
    s := Turn(s, 0x72be5d74, 0x00000000);
    assert s.a == 0x87912990 && s.e == 0x1e578218;
    s := Turn(s, 0x80deb1fe, 0x00000000);
    assert s.a == 0xd932eb16 && s.e == 0x745a48de;
    s := Turn(s, 0x9bdc06a7, 0x00000000);
    assert s.a == 0xc0645fde && s.e == 0x0b92f20c;
    s := Turn(s, 0xc19bf174, 0x00000018);
    assert s.a == 0xb0fa238e && s.e == 0x07590dcd;
  }

  lemma Turns2()
    ensures Eight(State(0xb0fa238e, 0xc0645fde, 0xd932eb16, 0x87912990, 0x07590dcd, 0x0b92f20c, 0x745a48de, 0x1e578218),
                  0xe49b69c1, 0xefbe4786, 0x0fc19dc6, 0x240ca1cc, 0x2de92c6f, 0x4a7484aa, 0x5cb0a9dc, 0x76f988da,
                  0x61626380, 0x000f0000, 0x7da86405, 0x600003c6, 0x3e9d7b78, 0x0183fc00, 0x12dcbfdb, 0xe2e2c38e)
         == State(0xc5d53d8d, 0xa7a3623f, 0xc2606d6d, 0x9dc68b63, 0xaa47c347, 0x49f5114a, 0xe1257970, 0x8ada8930)
  {
    var s := State(0xb0fa238e, 0xc0645fde, 0xd932eb16, 0x87912990, 0x07590dcd, 0x0b92f20c, 0x745a48de, 0x1e578218);
    s := Turn(s, 0xe49b69c1, 0x61626380);
    assert s.a == 0x21da9a9b && s.e == 0x8034229c;
    s := Turn(s, 0xefbe4786, 0x000f0000);
    assert s.a == 0xc2fbd9d1 && s.e == 0x846ee454;
    s := Turn(s, 0x0fc19dc6, 0x7da86405);
    assert s.a == 0xfe777bbf && s.e == 0xcc899961;
    s := Turn(s, 0x240ca1cc, 0x600003c6);
    assert s.a == 0xe1f20c33 && s.e == 0xb0638179;
    s := Turn(s, 0x2de92c6f, 0x3e9d7b78);
    assert s.a == 0x9dc68b63 && s.e == 0x8ada8930;
    s := Turn(s, 0x4a7484aa, 0x0183fc00);
    assert s.a == 0xc2606d6d && s.e == 0xe1257970;
    s := Turn(s, 0x5cb0a9dc, 0x12dcbfdb);
    assert s.a == 0xa7a3623f && s.e == 0x49f5114a;
    s := Turn(s, 0x76f988da, 0xe2e2c38e);
    assert s.a == 0xc5d53d8d && s.e == 0xaa47c347;
  }

  lemma Turns3()
    ensures Eight(State(0xc5d53d8d, 0xa7a3623f, 0xc2606d6d, 0x9dc68b63, 0xaa47c347, 0x49f5114a, 0xe1257970, 0x8ada8930),
                  0x983e5152, 0xa831c66d, 0xb00327c8, 0xbf597fc7, 0xc6e00bf3, 0xd5a79147, 0x06ca6351, 0x14292967,
                  0xc8215c1a, 0xb73679a2, 0xe5bc3909, 0x32663c5b, 0x9d209d67, 0xec8726cb, 0x702138a4, 0xd3b7973b)
         == State(0x73b33bf5, 0xea992a22, 0xa0060b30, 0x363482c9, 0xba591112, 0x0109ab3a, 0xade79437, 0x6112a3b7)
  {
    var s := State(0xc5d53d8d, 0xa7a3623f, 0xc2606d6d, 0x9dc68b63, 0xaa47c347, 0x49f5114a, 0xe1257970, 0x8ada8930);
    s := Turn(s, 0x983e5152, 0xc8215c1a);
    assert s.a == 0x1c2c2838 && s.e == 0x2823ef91;
    s := Turn(s, 0xa831c66d, 0xb73679a2);
    assert s.a == 0xcde8037d && s.e == 0x14383d8e;
    s := Turn(s, 0xb00327c8, 0xe5bc3909);
    assert s.a == 0xb62ec4bc && s.e == 0xc74c6516;
    s := Turn(s, 0xbf597fc7, 0x32663c5b);
    assert s.a == 0x77d37528 && s.e == 0xedffbff8;
    s := Turn(s, 0xc6e00bf3, 0x9d209d67);
    assert s.a == 0x363482c9 && s.e == 0x6112a3b7;
    s := Turn(s, 0xd5a79147, 0xec8726cb);
    assert s.a == 0xa0060b30 && s.e == 0xade79437;
    s := Turn(s, 0x06ca6351, 0x702138a4);
    assert s.a == 0xea992a22 && s.e == 0x0109ab3a;
    s := Turn(s, 0x14292967, 0xd3b7973b);
    assert s.a == 0x73b33bf5 && s.e == 0xba591112;
  }

  lemma Turns4()
    ensures Eight(State(0x73b33bf5, 0xea992a22, 0xa0060b30, 0x363482c9, 0xba591112, 0x0109ab3a, 0xade79437, 0x6112a3b7),
                  0x27b70a85, 0x2e1b2138, 0x4d2c6dfc, 0x53380d13, 0x650a7354, 0x766a0abb, 0x81c2c92e, 0x92722c85,
                  0x93f5997f, 0x3b68ba73, 0xaff4ffc1, 0xf10a5c62, 0x0a8b3996, 0x72af830a, 0x9409e33e, 0x24641522)
         == State(0x79ea687a, 0x6dc57a8a, 0x34df1604, 0x41a65cb1, 0x1efbc0a0, 0xf0781bc8, 0xa507a53d, 0x0772a26b)
  {
    var s := State(0x73b33bf5, 0xea992a22, 0xa0060b30, 0x363482c9, 0xba591112, 0x0109ab3a, 0xade79437, 0x6112a3b7);
    s := Turn(s, 0x27b70a85, 0x93f5997f);
    assert s.a == 0x98e12507 && s.e == 0x9cd9f5f6;
    s := Turn(s, 0x2e1b2138, 0x3b68ba73);
    assert s.a == 0xfe604df5 && s.e == 0x59249dd3;
    s := Turn(s, 0x4d2c6dfc, 0xaff4ffc1);
    assert s.a == 0xa9a7738c && s.e == 0x085f3833;
    s := Turn(s, 0x53380d13, 0xf10a5c62);
    assert s.a == 0x65a0cfe4 && s.e == 0xf4b002d6;
    s := Turn(s, 0x650a7354, 0x0a8b3996);
    assert s.a == 0x41a65cb1 && s.e == 0x0772a26b;
    s := Turn(s, 0x766a0abb, 0x72af830a);
    assert s.a == 0x34df1604 && s.e == 0xa507a53d;
    s := Turn(s, 0x81c2c92e, 0x9409e33e);
    assert s.a == 0x6dc57a8a && s.e == 0xf0781bc8;
    s := Turn(s, 0x92722c85, 0x24641522);
    assert s.a == 0x79ea687a && s.e == 0x1efbc0a0;
  }

  lemma Turns5()
    ensures Eight(State(0x79ea687a, 0x6dc57a8a, 0x34df1604, 0x41a65cb1, 0x1efbc0a0, 0xf0781bc8, 0xa507a53d, 0x0772a26b),
                  0xa2bfe8a1, 0xa81a664b, 0xc24b8b70, 0xc76c51a3, 0xd192e819, 0xd6990624, 0xf40e3585, 0x106aa070,
                  0x9f47bf94, 0xf0a64f5a, 0x3e246a79, 0x27333ba3, 0x0c4763f2, 0x840abf27, 0x7a290d5d, 0x065c43da)
         == State(0x4172328d, 0xa14c14b0, 0x72ab4b91, 0x26628815, 0xfecf0bc6, 0xd57b94a9, 0xb7755da1, 0xa80f11f0)
  {
    var s := State(0x79ea687a, 0x6dc57a8a, 0x34df1604, 0x41a65cb1, 0x1efbc0a0, 0xf0781bc8, 0xa507a53d, 0x0772a26b);
    s := Turn(s, 0xa2bfe8a1, 0x9f47bf94);
    assert s.a == 0xd6670766 && s.e == 0x26352d63;
    s := Turn(s, 0xa81a664b, 0xf0a64f5a);
    assert s.a == 0xdf46652f && s.e == 0x838b2711;
    s := Turn(s, 0xc24b8b70, 0x3e246a79);
    assert s.a == 0x17aa0dfe && s.e == 0xdecd4715;
    s := Turn(s, 0xc76c51a3, 0x27333ba3);
    assert s.a == 0x9d4baf93 && s.e == 0xfda24c2e;
    s := Turn(s, 0xd192e819, 0x0c4763f2);
    assert s.a == 0x26628815 && s.e == 0xa80f11f0;
    s := Turn(s, 0xd6990624, 0x840abf27);
    assert s.a == 0x72ab4b91 && s.e == 0xb7755da1;
    s := Turn(s, 0xf40e3585, 0x7a290d5d);
    assert s.a == 0xa14c14b0 && s.e == 0xd57b94a9;
    s := Turn(s, 0x106aa070, 0x065c43da);
    assert s.a == 0x4172328d && s.e == 0xfecf0bc6;
  }

  lemma Turns6()
    ensures Eight(State(0x4172328d, 0xa14c14b0, 0x72ab4b91, 0x26628815, 0xfecf0bc6, 0xd57b94a9, 0xb7755da1, 0xa80f11f0),
                  0x19a4c116, 0x1e376c08, 0x2748774c, 0x34b0bcb5, 0x391c0cb3, 0x4ed8aa4a, 0x5b9cca4f, 0x682e6ff3,
                  0xfb3e89cb, 0xcc7617db, 0xb9e66c34, 0xa9993667, 0x84badedd, 0xc21462bc, 0x1487472c, 0xb20f7a99)
         == State(0x38cc9913, 0x3ec45cdb, 0xf5702fdb, 0x101fd28f, 0x54cb266b, 0xe50e1b4f, 0x9f4787c3, 0x529e7d00)
  {
    var s := State(0x4172328d, 0xa14c14b0, 0x72ab4b91, 0x26628815, 0xfecf0bc6, 0xd57b94a9, 0xb7755da1, 0xa80f11f0);
    s := Turn(s, 0x19a4c116, 0xfb3e89cb);
    assert s.a == 0x05757ceb && s.e == 0xbd714038;
    s := Turn(s, 0x1e376c08, 0xcc7617db);
    assert s.a == 0xf11bfaa8 && s.e == 0x6e5c390c;
    s := Turn(s, 0x2748774c, 0xb9e66c34);
    assert s.a == 0x7a0508a1 && s.e == 0x52f1ccf7;
    s := Turn(s, 0x34b0bcb5, 0xa9993667);
    assert s.a == 0x886e7a22 && s.e == 0x49231c1e;
    s := Turn(s, 0x391c0cb3, 0x84badedd);
    assert s.a == 0x101fd28f && s.e == 0x529e7d00;
    s := Turn(s, 0x4ed8aa4a, 0xc21462bc);
    assert s.a == 0xf5702fdb && s.e == 0x9f4787c3;
    s := Turn(s, 0x5b9cca4f, 0x1487472c);
    assert s.a == 0x3ec45cdb && s.e == 0xe50e1b4f;
    s := Turn(s, 0x682e6ff3, 0xb20f7a99);
    assert s.a == 0x38cc9913 && s.e == 0x54cb266b;
  }

  lemma Turns7()
    ensures Eight(State(0x38cc9913, 0x3ec45cdb, 0xf5702fdb, 0x101fd28f, 0x54cb266b, 0xe50e1b4f, 0x9f4787c3, 0x529e7d00),
                  0x748f82ee, 0x78a5636f, 0x84c87814, 0x8cc70208, 0x90befffa, 0xa4506ceb, 0xbef9a3f7, 0xc67178f2,
                  0xef57b9cd, 0xebe6b238, 0x9fe3095e, 0x78bc8d4b, 0xa43fcf15, 0x668b2ff8, 0xeeaba2cc, 0x12b1edeb)
         == State(0x506e3058, 0xd39a2165, 0x04d24d6c, 0xb85e2ce9, 0x5ef50f24, 0xfb121210, 0x948d25b6, 0x961f4894)
  {
    var s := State(0x38cc9913, 0x3ec45cdb, 0xf5702fdb, 0x101fd28f, 0x54cb266b, 0xe50e1b4f, 0x9f4787c3, 0x529e7d00);
    s := Turn(s, 0x748f82ee, 0xef57b9cd);
    assert s.a == 0xfcd1887b && s.e == 0x9b5e906c;
    s := Turn(s, 0x78a5636f, 0xebe6b238);
    assert s.a == 0xc062d46f && s.e == 0x7e44008e;
    s := Turn(s, 0x84c87814, 0x9fe3095e);
    assert s.a == 0xffb70472 && s.e == 0x6d83bfc6;
    s := Turn(s, 0x8cc70208, 0x78bc8d4b);
    assert s.a == 0xb6ae8fff && s.e == 0xb21bad3d;
    s := Turn(s, 0x90befffa, 0xa43fcf15);
    assert s.a == 0xb85e2ce9 && s.e == 0x961f4894;
    s := Turn(s, 0xa4506ceb, 0x668b2ff8);
    assert s.a == 0x04d24d6c && s.e == 0x948d25b6;
    s := Turn(s, 0xbef9a3f7, 0xeeaba2cc);
    assert s.a == 0xd39a2165 && s.e == 0xfb121210;
    s := Turn(s, 0xc67178f2, 0x12b1edeb);
    assert s.a == 0x506e3058 && s.e == 0x5ef50f24;
  }

  function EightFrom(s: State, t: nat): State
    requires t + 8 <= 64
  {
    Eight(s, Constant(t), Constant(t + 1), Constant(t + 2), Constant(t + 3), Constant(t + 4), Constant(t + 5),
      Constant(t + 6), Constant(t + 7), Message(t), Message(t + 1), Message(t + 2), Message(t + 3), Message(t + 4),
      Message(t + 5), Message(t + 6), Message(t + 7))
  }

  lemma Step0()
    ensures EightFrom(STATES[0], 0) == STATES[1]
  {
    hide Eight;
    Turns0();
  }

  lemma Step1()
    ensures EightFrom(STATES[1], 8) == STATES[2]
  {
    hide Eight;
    Turns1();
  }

  lemma Step2()
    ensures EightFrom(STATES[2], 16) == STATES[3]
  {
    hide Eight;
    Turns2();
  }

  lemma Step3()
    ensures EightFrom(STATES[3], 24) == STATES[4]
  {
    hide Eight;
    Turns3();
  }

  lemma Step4()
    ensures EightFrom(STATES[4], 32) == STATES[5]
  {
    hide Eight;
    Turns4();
  }

  lemma Step5()
    ensures EightFrom(STATES[5], 40) == STATES[6]
  {
    hide Eight;
    Turns5();
  }

  lemma Step6()
    ensures EightFrom(STATES[6], 48) == STATES[7]
  {
    hide Eight;
    Turns6();
  }

  lemma Step7()
    ensures EightFrom(STATES[7], 56) == STATES[8]
  {
    hide Eight;
    Turns7();
  }

  lemma EightRounds(v0: Vars, t: nat)
    requires t + 8 <= 64 && Fit(Rounds(v0, BLOCK, t))
    ensures Words(Rounds(v0, BLOCK, t + 8)) == EightFrom(Words(Rounds(v0, BLOCK, t)), t)
    ensures Fit(Rounds(v0, BLOCK, t + 8))
  {
    hide Rounds, Turn, Constant, Message, Words, Fit;
    RoundAt(v0, t);
    RoundAt(v0, t + 1);
    RoundAt(v0, t + 2);
    RoundAt(v0, t + 3);
    RoundAt(v0, t + 4);
    RoundAt(v0, t + 5);
    RoundAt(v0, t + 6);
    RoundAt(v0, t + 7);
  }

  lemma RoundAt(v0: Vars, t: nat)
    requires t < 64 && Fit(Rounds(v0, BLOCK, t))
    ensures Words(Rounds(v0, BLOCK, t + 1)) == Turn(Words(Rounds(v0, BLOCK, t)), Constant(t), Message(t))
    ensures Fit(Rounds(v0, BLOCK, t + 1))
  {
    hide Round, Turn, Constant, Message, Words, Fit, W, Schedule;
    RoundsNext(v0, BLOCK, t);
    RoundWord(Rounds(v0, BLOCK, t), K[t], Schedule(BLOCK, t));
    ConstantWord(t);
    ScheduleWord(t);
  }

  function Start(): Vars {
    Vars(INITIAL[0], INITIAL[1], INITIAL[2], INITIAL[3], INITIAL[4], INITIAL[5], INITIAL[6], INITIAL[7])
  }

  function Numbers8(s: State): Vars {
    Vars(NumberOf(s.a), NumberOf(s.b), NumberOf(s.c), NumberOf(s.d),
         NumberOf(s.e), NumberOf(s.f), NumberOf(s.g), NumberOf(s.h))
  }

  lemma NumbersBack(v: Vars)
    requires Fit(v)
    ensures Numbers8(Words(v)) == v
  {
    hide W, NumberOf;
    NumberBack(v.a);
    NumberBack(v.b);
    NumberBack(v.c);
    NumberBack(v.d);
    NumberBack(v.e);
    NumberBack(v.f);
    NumberBack(v.g);
    NumberBack(v.h);
  }

  lemma WordsBack(s: State)
    ensures Words(Numbers8(s)) == s
  {
    hide W, NumberOf;
    WordBack(s.a);
    WordBack(s.b);
    WordBack(s.c);
    WordBack(s.d);
    WordBack(s.e);
    WordBack(s.f);
    WordBack(s.g);
    WordBack(s.h);
  }

  lemma FirstState()
    ensures Numbers8(STATES[0]) ==
      Vars(0x6a09e667, 0xbb67ae85, 0x3c6ef372, 0xa54ff53a, 0x510e527f, 0x9b05688c, 0x1f83d9ab, 0x5be0cd19)
  {
  }

  lemma StartIs()
    ensures Numbers8(STATES[0]) == Start() && Fit(Start())
  {
    hide Numbers8;
    FirstState();
  }

  lemma StepAt(g: nat)
    requires g < 8
    ensures EightFrom(STATES[g], 8 * g) == STATES[g + 1]
  {
    hide EightFrom;
    Step0();
    Step1();
    Step2();
    Step3();
    Step4();
    Step5();
    Step6();
    Step7();
  }

  lemma {:induction false} RoundsOfEight(g: nat)
    requires g <= 8
    ensures Words(Rounds(Start(), BLOCK, 8 * g)) == STATES[g] && Fit(Rounds(Start(), BLOCK, 8 * g))
  {
    hide Rounds, EightFrom, Words, Fit, Numbers8, Start;
    if g == 0 {
      StartIs();
      WordsBack(STATES[0]);
      RoundsNone(Start(), BLOCK);
    } else {
      RoundsOfEight(g - 1);
      EightRounds(Start(), 8 * (g - 1));
      StepAt(g - 1);
    }
  }

  const HASH: seq<nat> := [
    0xba7816bf, 0x8f01cfea, 0x414140de, 0x5dae2223, 0xb00361a3, 0x96177a9c, 0xb410ff61, 0xf20015ad]

  lemma LastState()
    ensures Numbers8(STATES[8]) ==
      Vars(0x506e3058, 0xd39a2165, 0x04d24d6c, 0xb85e2ce9, 0x5ef50f24, 0xfb121210, 0x948d25b6, 0x961f4894)
  {
    hide NumberOf;
    LastNumbers();
    OtherNumbers();
  }

  lemma LastNumbers()
    ensures NumberOf(0x506e3058) == 0x506e3058 && NumberOf(0xd39a2165) == 0xd39a2165
    ensures NumberOf(0x04d24d6c) == 0x04d24d6c && NumberOf(0xb85e2ce9) == 0xb85e2ce9
  {
  }

  lemma OtherNumbers()
    ensures NumberOf(0x5ef50f24) == 0x5ef50f24 && NumberOf(0xfb121210) == 0xfb121210
    ensures NumberOf(0x948d25b6) == 0x948d25b6 && NumberOf(0x961f4894) == 0x961f4894
  {
  }

  lemma BlockHashed()
    ensures Compress(INITIAL, BLOCK) == HASH
  {
    hide Rounds, Words, Fit, Numbers8;
    RoundsOfEight(8);
    NumbersBack(Rounds(Start(), BLOCK, 64));
    LastState();
  }

  const DIGEST: seq<byte> :=
    [0xba, 0x78, 0x16, 0xbf] + ([0x8f, 0x01, 0xcf, 0xea] + ([0x41, 0x41, 0x40, 0xde] + ([0x5d, 0xae, 0x22, 0x23] + (
    [0xb0, 0x03, 0x61, 0xa3] + ([0x96, 0x17, 0x7a, 0x9c] + ([0xb4, 0x10, 0xff, 0x61] + ([0xf2, 0x00, 0x15, 0xad])))))))

  lemma OctetsOf(w: nat)
    ensures Octet(w, 3) == w / 0x100_0000 % 0x100 && Octet(w, 2) == w / 0x1_0000 % 0x100
    ensures Octet(w, 1) == w / 0x100 % 0x100 && Octet(w, 0) == w % 0x100
  {
    WordIsPow2();
    assert Pow2(0) == 1;
    hide Pow2;
  }

  /** One more word in front, from its four bytes. */
  lemma OutputFront(w: nat, rest: seq<nat>, q: seq<byte>, bytes: seq<byte>)
    requires |q| == 4 && w == 0x100_0000 * q[0] as int + 0x1_0000 * q[1] as int + 0x100 * q[2] as int + q[3] as int
    requires Output(rest) == bytes
    ensures Output([w] + rest) == q + bytes
  {
    hide Octet;
    OctetsOf(w);
    assert w / 0x100 == 0x1_0000 * q[0] as int + 0x100 * q[1] as int + q[2] as int;
    assert w / 0x1_0000 == 0x100 * q[0] as int + q[1] as int;
    assert WordBytes(w) == q;
    assert ([w] + rest)[1..] == rest;
  }

  lemma HashBytes()
    ensures Output(HASH) == DIGEST
  {
    hide Output;
    var h8: seq<nat>, d8: seq<byte> := [], [];
    assert Output(h8) == d8 by { NoOutput(); }
    var h7, d7 := [0xf20015ad] + h8, [0xf2, 0x00, 0x15, 0xad] + d8;
    OutputFront(0xf20015ad, h8, [0xf2, 0x00, 0x15, 0xad], d8);
    var h6, d6 := [0xb410ff61] + h7, [0xb4, 0x10, 0xff, 0x61] + d7;
    OutputFront(0xb410ff61, h7, [0xb4, 0x10, 0xff, 0x61], d7);
    var h5, d5 := [0x96177a9c] + h6, [0x96, 0x17, 0x7a, 0x9c] + d6;
    OutputFront(0x96177a9c, h6, [0x96, 0x17, 0x7a, 0x9c], d6);
    var h4, d4 := [0xb00361a3] + h5, [0xb0, 0x03, 0x61, 0xa3] + d5;
    OutputFront(0xb00361a3, h5, [0xb0, 0x03, 0x61, 0xa3], d5);
    var h3, d3 := [0x5dae2223] + h4, [0x5d, 0xae, 0x22, 0x23] + d4;
    OutputFront(0x5dae2223, h4, [0x5d, 0xae, 0x22, 0x23], d4);
    var h2, d2 := [0x414140de] + h3, [0x41, 0x41, 0x40, 0xde] + d3;
    OutputFront(0x414140de, h3, [0x41, 0x41, 0x40, 0xde], d3);
    var h1, d1 := [0x8f01cfea] + h2, [0x8f, 0x01, 0xcf, 0xea] + d2;
    OutputFront(0x8f01cfea, h2, [0x8f, 0x01, 0xcf, 0xea], d2);
    var h0, d0 := [0xba7816bf] + h1, [0xba, 0x78, 0x16, 0xbf] + d1;
    OutputFront(0xba7816bf, h1, [0xba, 0x78, 0x16, 0xbf], d1);
    assert h0 == HASH;
    assert d7 == [0xf2, 0x00, 0x15, 0xad];
  }

  lemma NoOutput()
    ensures Output([]) == []
  {
  }

  /** SHA-256 of "abc", as in the standard's example. */
  lemma DigestOfAbc()
    ensures Digest(Chars("abc")) == DIGEST
  {
    hide Compress, Padded, Output;
    BlockIsPadded();
    assert BLOCK[..0] == [] && HashBlocks([]) == INITIAL;
    NextBlock(BLOCK, 0);
    assert BLOCK[0..] == BLOCK;
    BlockHashed();
    HashBytes();
  }
}
