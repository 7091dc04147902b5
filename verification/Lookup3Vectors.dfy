/** A known answer for module Lookup3, computed on machine words. */
module Lookup3Vectors {
  import opened Bytes
  import opened Bits
  import opened MachineWords
  import opened Lookup3

  datatype Words = Words(a: word, b: word, c: word)

  /** rot(x, k) */
  function Turned(x: word, k: nat): word
    requires 0 < k < 32
  {
    WOr(ShlBy(x, k), ShrBy(x, 32 - k))
  }

  lemma RotWord(x: nat, k: nat)
    requires x < WORD && 0 < k < 32
    ensures W(Rot(x, k)) == Turned(W(x), k)
  {
    hide W, Or, ShiftRight, ShiftLeft, Lefts, Rights, ShlBy, ShrBy, WOr;
    WordOr(ShiftLeft(x, k), ShiftRight(x, 32 - k));
    WordRights(x, 32 - k);
    WordLeft(x, k);
    RightsBy(W(x), 32 - k);
    LeftsBy(W(x), k);
  }

  lemma FlipWord(x: nat, y: nat)
    requires x < WORD && y < WORD
    ensures W(Flip(x, y)) == WXor(W(x), W(y))
  {
    hide W, Xor, WXor;
    WordXor(x, y);
  }

  function WMinus(x: word, y: word): word { x - y }

  lemma MinusUndoes(x: word, y: word)
    ensures WMinus(x + y, y) == x
  {
  }

  lemma MinusPlus(x: word, y: word)
    ensures WMinus(WPlus(x, y), y) == x
  {
    hide WMinus;
    MinusUndoes(x, y);
  }

  /** Wrapping subtraction is the machine's. */
  lemma MinusWord(x: nat, y: nat)
    requires x < WORD
    ensures W(Minus(x, y)) == WMinus(W(x), W(y))
  {
    hide W, WMinus, WPlus, Plus, Minus;
    Shifts(x, y);
    WordPlus(Minus(x, y), y);
    MinusPlus(W(Minus(x, y)), W(y));
  }

  // ---- Lines, mixing and final mixing on machine words ----

  function Line(x: word, y: word, z: word, k: nat): (word, word)
    requires 0 < k < 32
  {
    (WXor(WMinus(x, z), Turned(z, k)), WPlus(z, y))
  }

  function LineA(s: Words, k: nat): Words
    requires 0 < k < 32
  {
    var t := Line(s.a, s.b, s.c, k);
    Words(t.0, s.b, t.1)
  }

  function LineB(s: Words, k: nat): Words
    requires 0 < k < 32
  {
    var t := Line(s.b, s.c, s.a, k);
    Words(t.1, t.0, s.c)
  }

  function LineC(s: Words, k: nat): Words
    requires 0 < k < 32
  {
    var t := Line(s.c, s.a, s.b, k);
    Words(s.a, t.1, t.0)
  }

  function Mixed(s: Words): Words { LineC(LineB(LineA(LineC(LineB(LineA(s, 4), 6), 8), 16), 19), 4) }

  function Ended(x: word, y: word, k: nat): word
    requires 0 < k < 32
  {
    WMinus(WXor(x, y), Turned(y, k))
  }

  function Finished(s: Words): word {
    var c1 := Ended(s.c, s.b, 14);
    var a1 := Ended(s.a, c1, 11);
    var b1 := Ended(s.b, a1, 25);
    var c2 := Ended(c1, b1, 16);
    var a2 := Ended(a1, c2, 4);
    var b2 := Ended(b1, a2, 14);
    Ended(c2, b2, 24)
  }

  function Number(s: Words): (n: State) { State(NumberOf(s.a), NumberOf(s.b), NumberOf(s.c)) }

  function Word3(s: State): Words { Words(W(s.a), W(s.b), W(s.c)) }

  lemma TurnWord(x: nat, y: nat, z: nat, k: nat)
    requires x < WORD && y < WORD && z < WORD && 0 < k < 32
    ensures var t := Turn(x, y, z, k); (W(t.0), W(t.1)) == Line(W(x), W(y), W(z), k)
  {
    hide W, Rot, Flip, Plus, Minus, Turned, WXor, WPlus, WMinus;
    MinusWord(x, z);
    RotWord(z, k);
    FlipWord(Minus(x, z), Rot(z, k));
    WordPlus(z, y);
  }

  lemma LineWord(s: State, k: nat)
    requires s.Words() && 0 < k < 32
    ensures Word3(MixA(s, k)) == LineA(Word3(s), k)
    ensures Word3(MixB(s, k)) == LineB(Word3(s), k)
    ensures Word3(MixC(s, k)) == LineC(Word3(s), k)
  {
    hide W, Lookup3.Turn, Line;
    TurnWord(s.a, s.b, s.c, k);
    TurnWord(s.b, s.c, s.a, k);
    TurnWord(s.c, s.a, s.b, k);
  }

  /** mix on machine words. */
  lemma MixWord(s: State)
    requires s.Words()
    ensures Word3(Mix(s)) == Mixed(Word3(s))
  {
    hide MixA, MixB, MixC, LineA, LineB, LineC, Word3;
    var s1 := MixA(s, 4);
    var s2 := MixB(s1, 6);
    var s3 := MixC(s2, 8);
    var s4 := MixA(s3, 16);
    var s5 := MixB(s4, 19);
    LineWord(s, 4);
    LineWord(s1, 6);
    LineWord(s2, 8);
    LineWord(s3, 16);
    LineWord(s4, 19);
    LineWord(s5, 4);
  }

  lemma EndWord(x: nat, y: nat, k: nat)
    requires x < WORD && y < WORD && 0 < k < 32
    ensures W(Minus(Flip(x, y), Rot(y, k))) == Ended(W(x), W(y), k)
  {
    hide W, Rot, Flip, Minus, Turned, WXor, WMinus;
    MinusWord(Flip(x, y), Rot(y, k));
    RotWord(y, k);
    FlipWord(x, y);
  }

  /** final on machine words. */
  lemma FinalWord(s: State)
    requires s.Words()
    ensures W(Final(s)) == Finished(Word3(s))
  {
    hide W, Rot, Flip, Minus, Ended;
    var c1 := Minus(Flip(s.c, s.b), Rot(s.b, 14));
    var a1 := Minus(Flip(s.a, c1), Rot(c1, 11));
    var b1 := Minus(Flip(s.b, a1), Rot(a1, 25));
    var c2 := Minus(Flip(c1, b1), Rot(b1, 16));
    var a2 := Minus(Flip(a1, c2), Rot(c2, 4));
    var b2 := Minus(Flip(b1, a2), Rot(a2, 14));
    EndWord(s.c, s.b, 14);
    EndWord(s.a, c1, 11);
    EndWord(s.b, a1, 25);
    EndWord(c1, b1, 16);
    EndWord(a1, c2, 4);
    EndWord(b1, a2, 14);
    EndWord(c2, b2, 24);
  }

  lemma NumberBack3(s: State)
    requires s.Words()
    ensures Number(Word3(s)) == s
  {
    hide W, NumberOf;
    NumberBack(s.a);
    NumberBack(s.b);
    NumberBack(s.c);
  }

  lemma WordBack3(s: Words)
    ensures Word3(Number(s)) == s
  {
    hide W, NumberOf;
    WordBack(s.a);
    WordBack(s.b);
    WordBack(s.c);
  }

  // ---- The author's example: a sentence of thirty bytes ----

  const FIRST: seq<byte> := Chars("Four score a")
  const SECOND: seq<byte> := Chars("nd seven yea")
  const THIRD: seq<byte> := Chars("rs ago")

  lemma FirstMixUpper()
    ensures LineA(Words(0x51232e53, 0x4e11322d, 0x3fce247f), 4)
         == Words(0xedb74e27, 0x4e11322d, 0x8ddf56ac)
    ensures LineB(Words(0xedb74e27, 0x4e11322d, 0x8ddf56ac), 6)
         == Words(0x7b96a4d3, 0x0d8a6dfd, 0x8ddf56ac)
  {
  }

  lemma FirstMixMiddle()
    ensures LineC(Words(0x7b96a4d3, 0x0d8a6dfd, 0x8ddf56ac), 8)
         == Words(0x7b96a4d3, 0x892112d0, 0x0a3915a2)
    ensures LineA(Words(0x7b96a4d3, 0x892112d0, 0x0a3915a2), 16)
         == Words(0x64ff8508, 0x892112d0, 0x935a2872)
  {
  }

  lemma FirstMixLower()
    ensures LineB(Words(0x64ff8508, 0x892112d0, 0x935a2872), 19)
         == Words(0xf859ad7a, 0x0c62aa34, 0x935a2872)
    ensures LineC(Words(0xf859ad7a, 0x0c62aa34, 0x935a2872), 4)
         == Words(0xf859ad7a, 0x04bc57ae, 0x40dddd7e)
  {
  }

  lemma FirstMix()
    ensures Mixed(Words(0x51232e53, 0x4e11322d, 0x3fce247f))
         == Words(0xf859ad7a, 0x04bc57ae, 0x40dddd7e)
  {
    hide LineA, LineB, LineC;
    FirstMixUpper();
    FirstMixMiddle();
    FirstMixLower();
  }

  lemma SecondMixUpper()
    ensures LineA(Words(0x6b7a11e8, 0x7321ce13, 0xa243569e), 4)
         == Words(0xed03d2a0, 0x7321ce13, 0x156524b1)
    ensures LineB(Words(0xed03d2a0, 0x7321ce13, 0x156524b1), 6)
         == Words(0x0268f751, 0xc6e95348, 0x156524b1)
  {
  }

  lemma SecondMixMiddle()
    ensures LineC(Words(0x0268f751, 0xc6e95348, 0x156524b1), 8)
         == Words(0x0268f751, 0xc9524a99, 0xa72899af)
    ensures LineA(Words(0x0268f751, 0xc9524a99, 0xa72899af), 16)
         == Words(0xc2effa8a, 0xc9524a99, 0x707ae448)
  {
  }

  lemma SecondMixLower()
    ensures LineB(Words(0xc2effa8a, 0xc9524a99, 0x707ae448), 19)
         == Words(0x336aded2, 0xd2344770, 0x707ae448)
    ensures LineC(Words(0x336aded2, 0xd2344770, 0x707ae448), 4)
         == Words(0x336aded2, 0x059f2642, 0xbd02ebd5)
  {
  }

  lemma SecondMix()
    ensures Mixed(Words(0x6b7a11e8, 0x7321ce13, 0xa243569e))
         == Words(0x336aded2, 0x059f2642, 0xbd02ebd5)
  {
    hide LineA, LineB, LineC;
    SecondMixUpper();
    SecondMixMiddle();
    SecondMixLower();
  }

  lemma LastMix()
    ensures Finished(Words(0x948b5244, 0x059f95a9, 0xbd02ebd5)) == 0x17770551
  {
    var c1 := Ended(0xbd02ebd5, 0x059f95a9, 14);
    assert c1 == 0xd3333d15;
    var a1 := Ended(0x948b5244, c1, 11);
    assert a1 == 0xadcfc0b8;
    var b1 := Ended(0x059f95a9, a1, 25);
    assert b1 == 0x36f4b590;
    var c2 := Ended(c1, b1, 16);
    assert c2 == 0x30375191;
    var a2 := Ended(a1, c2, 4);
    assert a2 == 0x9a837816;
    var b2 := Ended(b1, a2, 14);
    assert b2 == 0xce7226e6;
    var c3 := Ended(c2, b2, 24);
    assert c3 == 0x17770551;
  }

  lemma FirstNumbers()
    ensures NumberOf(0x51232e53) == 0x51232e53 && NumberOf(0x4e11322d) == 0x4e11322d
    ensures NumberOf(0x3fce247f) == 0x3fce247f && NumberOf(0xf859ad7a) == 0xf859ad7a
    ensures NumberOf(0x04bc57ae) == 0x04bc57ae && NumberOf(0x40dddd7e) == 0x40dddd7e
  {
  }

  lemma SecondNumbers()
    ensures NumberOf(0x6b7a11e8) == 0x6b7a11e8 && NumberOf(0x7321ce13) == 0x7321ce13
    ensures NumberOf(0xa243569e) == 0xa243569e && NumberOf(0x336aded2) == 0x336aded2
    ensures NumberOf(0x059f2642) == 0x059f2642 && NumberOf(0xbd02ebd5) == 0xbd02ebd5
  {
  }

  lemma ThirdNumbers()
    ensures NumberOf(0x948b5244) == 0x948b5244 && NumberOf(0x059f95a9) == 0x059f95a9
    ensures NumberOf(0xbd02ebd5) == 0xbd02ebd5 && NumberOf(0x17770551) == 0x17770551
  {
  }

  lemma FirstBlock()
    ensures Start(30, 0) == State(0xdeadbf0d, 0xdeadbf0d, 0xdeadbf0d)
    ensures AddBlock(Start(30, 0), FIRST) == State(0x51232e53, 0x4e11322d, 0x3fce247f)
  {
  }

  lemma SecondBlock()
    ensures AddBlock(State(0xf859ad7a, 0x04bc57ae, 0x40dddd7e), SECOND) == State(0x6b7a11e8, 0x7321ce13, 0xa243569e)
  {
  }

  lemma ThirdBlock()
    ensures AddBlock(State(0x336aded2, 0x059f2642, 0xbd02ebd5), THIRD) == State(0x948b5244, 0x059f95a9, 0xbd02ebd5)
  {
    var key: seq<byte> := [114, 115, 32, 97, 103, 111];
    assert THIRD == key;
    hide Plus;
    assert BlockWord(key, 0) == 0x61207372 && BlockWord(key, 1) == 0x6f67 && BlockWord(key, 2) == 0;
    ThirdSums();
  }

  lemma ThirdSums()
    ensures Plus(0x336aded2, 0x61207372) == 0x948b5244 && Plus(0x059f2642, 0x6f67) == 0x059f95a9
    ensures Plus(0xbd02ebd5, 0) == 0xbd02ebd5
  {
  }

  /** What mix makes of a state, read off the machine words. */
  lemma MixedTo(s: State, w: Words, t: Words)
    requires s.Words() && s == Number(w) && Mixed(w) == t
    ensures Mix(s) == Number(t)
  {
    hide NumberOf, Mixed, Mix, W;
    MixWord(s);
    WordBack3(w);
    NumberBack3(Mix(s));
  }

  lemma FinishedTo(s: State, w: Words, t: word)
    requires s.Words() && s == Number(w) && Finished(w) == t
    ensures Final(s) == NumberOf(t)
  {
    hide NumberOf, Finished, Final, W;
    FinalWord(s);
    WordBack3(w);
    NumberBack(Final(s));
  }

  lemma FirstTwo()
    ensures Mix(State(0x51232e53, 0x4e11322d, 0x3fce247f)) == State(0xf859ad7a, 0x04bc57ae, 0x40dddd7e)
    ensures Mix(State(0x6b7a11e8, 0x7321ce13, 0xa243569e)) == State(0x336aded2, 0x059f2642, 0xbd02ebd5)
  {
    hide NumberOf, Mixed, Mix;
    FirstNumbers();
    SecondNumbers();
    FirstMix();
    SecondMix();
    MixedTo(State(0x51232e53, 0x4e11322d, 0x3fce247f), Words(0x51232e53, 0x4e11322d, 0x3fce247f),
      Words(0xf859ad7a, 0x04bc57ae, 0x40dddd7e));
    MixedTo(State(0x6b7a11e8, 0x7321ce13, 0xa243569e), Words(0x6b7a11e8, 0x7321ce13, 0xa243569e),
      Words(0x336aded2, 0x059f2642, 0xbd02ebd5));
  }

  lemma LastOne()
    ensures Final(State(0x948b5244, 0x059f95a9, 0xbd02ebd5)) == 0x17770551
  {
    hide NumberOf, Finished, Final;
    ThirdNumbers();
    LastMix();
    FinishedTo(State(0x948b5244, 0x059f95a9, 0xbd02ebd5), Words(0x948b5244, 0x059f95a9, 0xbd02ebd5), 0x17770551);
  }

  /** hashlittle("Four score and seven years ago", 30, 0), as the function's author gives it. */
  lemma HashOfSentence()
    ensures HashLittle(FIRST + SECOND + THIRD, 0) == 0x17770551
  {
    hide Mix, Final, AddBlock, Blocks, Lookup3.Start;
    var key := FIRST + SECOND + THIRD;
    assert key[..12] == FIRST && key[12..][..12] == SECOND && key[12..][12..] == THIRD;
    FirstBlock();
    SecondBlock();
    ThirdBlock();
    FirstTwo();
    LastOne();
    BlocksStep(Start(30, 0), key);
    BlocksStep(State(0xf859ad7a, 0x04bc57ae, 0x40dddd7e), key[12..]);
    BlocksEnd(State(0x336aded2, 0x059f2642, 0xbd02ebd5), THIRD);
  }
}
