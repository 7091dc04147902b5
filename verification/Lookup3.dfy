/**
  * hashlittle of deps/jansson/src/lookup3.h on a little-endian machine: its 32-bit, 16-bit and
  * bytewise read paths compute the same function of the key's bytes and the seed.
  */
module Lookup3 {
  import opened Bytes
  import opened Bits

  type Memory = seq<byte>

  datatype State = State(a: nat, b: nat, c: nat) {
    predicate Words() {
      a < WORD && b < WORD && c < WORD
    }
  }

  // ---- Mixing ----

  /** rot(x, k) */
  function Rot(x: nat, k: nat): (r: nat)
    requires x < WORD && 0 < k < 32
    ensures r < WORD
  {
    WordIsPow2();
    Shrinks(x, Pow2(32 - k));
    OrBound(ShiftLeft(x, k), ShiftRight(x, 32 - k), 32);
    Or(ShiftLeft(x, k), ShiftRight(x, 32 - k))
  }

  /** Exclusive or of two words. */
  function Flip(x: nat, y: nat): (r: nat)
    requires x < WORD && y < WORD
    ensures r < WORD
  {
    WordIsPow2();
    XorBound(x, y, 32);
    Xor(x, y)
  }

  /** One line of mix: x -= z; x ^= rot(z, k); z += y; */
  function Turn(x: nat, y: nat, z: nat, k: nat): (t: (nat, nat))
    requires x < WORD && y < WORD && z < WORD && 0 < k < 32
    ensures t.0 < WORD && t.1 < WORD
  {
    (Flip(Minus(x, z), Rot(z, k)), Plus(z, y))
  }

  /** Its inverse. */
  function Unturn(x: nat, y: nat, z: nat, k: nat): (t: (nat, nat))
    requires x < WORD && y < WORD && z < WORD && 0 < k < 32
    ensures t.0 < WORD && t.1 < WORD
  {
    var w := Minus(z, y);
    (Plus(Flip(x, Rot(w, k)), w), w)
  }

  lemma TurnUnturn(x: nat, y: nat, z: nat, k: nat)
    requires x < WORD && y < WORD && z < WORD && 0 < k < 32
    ensures var t := Turn(x, y, z, k); Unturn(t.0, y, t.1, k) == (x, z)
    ensures var t := Unturn(x, y, z, k); Turn(t.0, y, t.1, k) == (x, z)
  {
    hide Rot, Flip, Plus, Minus;
    var w := Minus(z, y);
    Shifts(z, y);
    Shifts(x, z);
    Cancels(Minus(x, z), Rot(z, k));
    Shifts(Flip(x, Rot(w, k)), w);
    Cancels(x, Rot(w, k));
  }

  lemma Shifts(x: nat, y: nat)
    requires x < WORD
    ensures Minus(Plus(x, y), y) == x && Plus(Minus(x, y), y) == x
  {
    Unwrapped(x, -((x + y) / WORD));
    Unwrapped(x, -((x - y) / WORD));
  }

  lemma Unwrapped(x: nat, q: int)
    requires x < WORD
    ensures (x + q * WORD) % WORD == x
  {
  }

  lemma Cancels(x: nat, r: nat)
    requires x < WORD && r < WORD
    ensures Flip(Flip(x, r), r) == x
  {
    XorCancels(x, r);
  }

  function MixA(s: State, k: nat): (r: State)
    requires s.Words() && 0 < k < 32
    ensures r.Words()
  {
    var t := Turn(s.a, s.b, s.c, k);
    State(t.0, s.b, t.1)
  }

  function MixB(s: State, k: nat): (r: State)
    requires s.Words() && 0 < k < 32
    ensures r.Words()
  {
    var t := Turn(s.b, s.c, s.a, k);
    State(t.1, t.0, s.c)
  }

  function MixC(s: State, k: nat): (r: State)
    requires s.Words() && 0 < k < 32
    ensures r.Words()
  {
    var t := Turn(s.c, s.a, s.b, k);
    State(s.a, t.1, t.0)
  }

  /** mix */
  function Mix(s: State): (r: State)
    requires s.Words()
    ensures r.Words()
  {
    MixC(MixB(MixA(MixC(MixB(MixA(s, 4), 6), 8), 16), 19), 4)
  }

  function UnmixA(s: State, k: nat): (r: State)
    requires s.Words() && 0 < k < 32
    ensures r.Words()
  {
    var t := Unturn(s.a, s.b, s.c, k);
    State(t.0, s.b, t.1)
  }

  function UnmixB(s: State, k: nat): (r: State)
    requires s.Words() && 0 < k < 32
    ensures r.Words()
  {
    var t := Unturn(s.b, s.c, s.a, k);
    State(t.1, t.0, s.c)
  }

  function UnmixC(s: State, k: nat): (r: State)
    requires s.Words() && 0 < k < 32
    ensures r.Words()
  {
    var t := Unturn(s.c, s.a, s.b, k);
    State(s.a, t.1, t.0)
  }

  function Unmix(s: State): (r: State)
    requires s.Words()
    ensures r.Words()
  {
    UnmixA(UnmixB(UnmixC(UnmixA(UnmixB(UnmixC(s, 4), 19), 16), 8), 6), 4)
  }

  lemma LineBijective(s: State, k: nat)
    requires s.Words() && 0 < k < 32
    ensures UnmixA(MixA(s, k), k) == s && MixA(UnmixA(s, k), k) == s
    ensures UnmixB(MixB(s, k), k) == s && MixB(UnmixB(s, k), k) == s
    ensures UnmixC(MixC(s, k), k) == s && MixC(UnmixC(s, k), k) == s
  {
    hide Turn, Unturn;
    TurnUnturn(s.a, s.b, s.c, k);
    TurnUnturn(s.b, s.c, s.a, k);
    TurnUnturn(s.c, s.a, s.b, k);
  }

  /** mix is a bijection on triples of words. */
  lemma MixBijective(s: State)
    requires s.Words()
    ensures Unmix(Mix(s)) == s && Mix(Unmix(s)) == s
  {
    hide MixA, MixB, MixC, UnmixA, UnmixB, UnmixC;
    var s1 := MixA(s, 4);
    var s2 := MixB(s1, 6);
    var s3 := MixC(s2, 8);
    var s4 := MixA(s3, 16);
    var s5 := MixB(s4, 19);
    LineBijective(s, 4);
    LineBijective(s1, 6);
    LineBijective(s2, 8);
    LineBijective(s3, 16);
    LineBijective(s4, 19);
    LineBijective(s5, 4);
    var u1 := UnmixC(s, 4);
    var u2 := UnmixB(u1, 19);
    var u3 := UnmixA(u2, 16);
    var u4 := UnmixC(u3, 8);
    var u5 := UnmixB(u4, 6);
    LineBijective(u1, 19);
    LineBijective(u2, 16);
    LineBijective(u3, 8);
    LineBijective(u4, 6);
    LineBijective(u5, 4);
  }

  /** final */
  function Final(s: State): (r: nat)
    requires s.Words()
    ensures r < WORD
  {
    var c1 := Minus(Flip(s.c, s.b), Rot(s.b, 14));
    var a1 := Minus(Flip(s.a, c1), Rot(c1, 11));
    var b1 := Minus(Flip(s.b, a1), Rot(a1, 25));
    var c2 := Minus(Flip(c1, b1), Rot(b1, 16));
    var a2 := Minus(Flip(a1, c2), Rot(c2, 4));
    var b2 := Minus(Flip(b1, a2), Rot(a2, 14));
    Minus(Flip(c2, b2), Rot(b2, 24))
  }

  // ---- What is computed: the key cut into 12-byte blocks, the last padded with zero bytes ----

  function Word(b0: byte, b1: byte, b2: byte, b3: byte): (w: nat)
    ensures w < WORD
  {
    b0 as int + 0x100 * b1 as int + 0x1_0000 * b2 as int + 0x100_0000 * b3 as int
  }

  /** A byte of the padded block. */
  function ByteAt(s: Memory, i: nat): byte {
    if i < |s| then s[i] else 0
  }

  function BlockWord(s: Memory, j: nat): (w: nat)
    ensures w < WORD
  {
    Word(ByteAt(s, 4 * j), ByteAt(s, 4 * j + 1), ByteAt(s, 4 * j + 2), ByteAt(s, 4 * j + 3))
  }

  function AddBlock(st: State, s: Memory): (r: State)
    ensures r.Words()
  {
    State(Plus(st.a, BlockWord(s, 0)), Plus(st.b, BlockWord(s, 1)), Plus(st.c, BlockWord(s, 2)))
  }

  /** The state when at most 12 bytes are left, and those bytes. */
  function Blocks(st: State, key: Memory): (r: (State, Memory))
    requires st.Words()
    ensures r.0.Words()
    decreases |key|
  {
    if |key| <= 12 then (st, key) else Blocks(Mix(AddBlock(st, key[..12])), key[12..])
  }

  function Finish(st: State, rest: Memory): (r: nat)
    requires st.Words()
    ensures r < WORD
  {
    if rest == [] then st.c else Final(AddBlock(st, rest))
  }

  function Start(length: nat, seed: nat): (st: State)
    ensures st.Words()
  {
    var x := Plus(Plus(0xdeadbeef, length % WORD), seed);
    State(x, x, x)
  }

  function HashLittle(key: Memory, seed: nat): (h: nat)
    ensures h < WORD
  {
    var r := Blocks(Start(|key|, seed), key);
    Finish(r.0, r.1)
  }

  // ---- Nothing is lost before the final mixing ----

  lemma AddBlockInjective(s: State, t: State, block: Memory)
    requires s.Words() && t.Words() && AddBlock(s, block) == AddBlock(t, block)
    ensures s == t
  {
    hide Plus, Minus;
    Shifts(s.a, BlockWord(block, 0));
    Shifts(t.a, BlockWord(block, 0));
    Shifts(s.b, BlockWord(block, 1));
    Shifts(t.b, BlockWord(block, 1));
    Shifts(s.c, BlockWord(block, 2));
    Shifts(t.c, BlockWord(block, 2));
  }

  lemma BlockInjective(s: State, x: Memory, y: Memory)
    requires s.Words() && |x| == |y| == 12 && AddBlock(s, x) == AddBlock(s, y)
    ensures x == y
  {
    assert BlockWord(x, 0) == BlockWord(y, 0) && BlockWord(x, 1) == BlockWord(y, 1) && BlockWord(x, 2) == BlockWord(y, 2) by {
      hide BlockWord;
      PlusInjective(s.a, BlockWord(x, 0), BlockWord(y, 0));
      PlusInjective(s.b, BlockWord(x, 1), BlockWord(y, 1));
      PlusInjective(s.c, BlockWord(x, 2), BlockWord(y, 2));
    }
    hide Plus;
    forall i | 0 <= i < 12
      ensures x[i] == y[i]
    {
      assert i / 4 == 0 || i / 4 == 1 || i / 4 == 2;
      WordInjective(x, y, i / 4);
    }
  }

  lemma PlusInjective(a: nat, x: nat, y: nat)
    requires a < WORD && x < WORD && y < WORD && Plus(a, x) == Plus(a, y)
    ensures x == y
  {
  }

  lemma WordInjective(x: Memory, y: Memory, j: nat)
    requires |x| == |y| == 12 && j < 3 && BlockWord(x, j) == BlockWord(y, j)
    ensures forall i :: 4 * j <= i < 4 * j + 4 ==> x[i] == y[i]
  {
    var k := 4 * j;
    WordBytes(x[k], x[k + 1], x[k + 2], x[k + 3], y[k], y[k + 1], y[k + 2], y[k + 3]);
  }

  lemma WordBytes(b0: byte, b1: byte, b2: byte, b3: byte, c0: byte, c1: byte, c2: byte, c3: byte)
    requires Word(b0, b1, b2, b3) == Word(c0, c1, c2, c3)
    ensures b0 == c0 && b1 == c1 && b2 == c2 && b3 == c3
  {
    LowByte(b0, b1 as int + 0x100 * b2 as int + 0x1_0000 * b3 as int, c0,
      c1 as int + 0x100 * c2 as int + 0x1_0000 * c3 as int);
    LowByte(b1, b2 as int + 0x100 * b3 as int, c1, c2 as int + 0x100 * c3 as int);
    LowByte(b2, b3, c2, c3);
  }

  lemma LowByte(b: byte, x: nat, c: byte, y: nat)
    requires b as int + 0x100 * x == c as int + 0x100 * y
    ensures b == c && x == y
  {
  }

  lemma {:induction false} BlocksKeepApart(s: State, t: State, key: Memory)
    requires s.Words() && t.Words() && s != t
    ensures Blocks(s, key).0 != Blocks(t, key).0
    decreases |key|
  {
    if |key| > 12 {
      var block := key[..12];
      if AddBlock(s, block) == AddBlock(t, block) {
        AddBlockInjective(s, t, block);
      }
      MixBijective(AddBlock(s, block));
      MixBijective(AddBlock(t, block));
      BlocksKeepApart(Mix(AddBlock(s, block)), Mix(AddBlock(t, block)), key[12..]);
    }
  }

  /** Keys of one length that differ in just one full block leave the block loop in different states. */
  lemma {:induction false} OneBlockDiffers(s: State, x: Memory, y: Memory, i: nat)
    requires s.Words() && |x| == |y| && 12 * i + 12 < |x|
    requires x[..12 * i] == y[..12 * i] && x[12 * i + 12..] == y[12 * i + 12..] && x != y
    ensures Blocks(s, x).0 != Blocks(s, y).0
    decreases i
  {
    hide Mix, AddBlock;
    if i == 0 {
      assert x == x[..12] + x[12..] && y == y[..12] + y[12..];
      if AddBlock(s, x[..12]) == AddBlock(s, y[..12]) {
        BlockInjective(s, x[..12], y[..12]);
      }
      MixBijective(AddBlock(s, x[..12]));
      MixBijective(AddBlock(s, y[..12]));
      BlocksKeepApart(Mix(AddBlock(s, x[..12])), Mix(AddBlock(s, y[..12])), x[12..]);
    } else {
      assert x[..12] == x[..12 * i][..12] && y[..12] == y[..12 * i][..12];
      assert x[12..][..12 * (i - 1)] == x[..12 * i][12..] && y[12..][..12 * (i - 1)] == y[..12 * i][12..];
      assert x[12..][12 * (i - 1) + 12..] == x[12 * i + 12..] && y[12..][12 * (i - 1) + 12..] == y[12 * i + 12..];
      assert x == x[..12] + x[12..] && y == y[..12] + y[12..];
      OneBlockDiffers(Mix(AddBlock(s, x[..12])), x[12..], y[12..], i - 1);
    }
  }

  // ---- The three read paths ----

  /** A 32-bit little-endian read. */
  function Read32(mem: Memory, i: nat): (w: nat)
    requires i + 4 <= |mem|
    ensures w < WORD
  {
    Word(mem[i], mem[i + 1], mem[i + 2], mem[i + 3])
  }

  /** A 16-bit little-endian read. */
  function Read16(mem: Memory, i: nat): (w: nat)
    requires i + 2 <= |mem|
    ensures w < 0x1_0000
  {
    mem[i] as int + 0x100 * mem[i + 1] as int
  }

  /** Masking a word keeps its low bytes, whatever the bytes behind them are. */
  lemma MaskedWord(b0: byte, b1: byte, b2: byte, b3: byte)
    ensures And(Word(b0, b1, b2, b3), 0xffffff) == Word(b0, b1, b2, 0)
    ensures And(Word(b0, b1, b2, b3), 0xffff) == Word(b0, b1, 0, 0)
    ensures And(Word(b0, b1, b2, b3), 0xff) == Word(b0, 0, 0, 0)
  {
    hide And, Pow2;
    var w := Word(b0, b1, b2, b3);
    WordIsPow2();
    MaskIsRemainder(w, 8);
    MaskIsRemainder(w, 16);
    MaskIsRemainder(w, 24);
    DivModUnique(w, 0x100_0000, b3 as int, Word(b0, b1, b2, 0));
    DivModUnique(w, 0x1_0000, b2 as int + 0x100 * b3 as int, Word(b0, b1, 0, 0));
    DivModUnique(w, 0x100, b1 as int + 0x100 * b2 as int + 0x1_0000 * b3 as int, Word(b0, 0, 0, 0));
  }

  lemma PlusPlus(a: nat, x: nat, y: nat)
    ensures Plus(Plus(a, x), y) == Plus(a, x + y)
  {
  }

  lemma PlusZero(a: nat)
    requires a < WORD
    ensures Plus(a, 0) == a
  {
  }

  /** The words of the block at position i, padded. */
  lemma BlockAt(mem: Memory, i: nat, n: nat, j: nat)
    requires i + n <= |mem| && n <= 12 && j < 3
    ensures 4 * j + 4 <= n ==> BlockWord(mem[i..i + n], j) == Read32(mem, i + 4 * j)
    ensures 4 * j + 3 == n ==>
      BlockWord(mem[i..i + n], j) == Word(mem[i + 4 * j], mem[i + 4 * j + 1], mem[i + 4 * j + 2], 0)
    ensures 4 * j + 2 == n ==> BlockWord(mem[i..i + n], j) == Word(mem[i + 4 * j], mem[i + 4 * j + 1], 0, 0)
    ensures 4 * j + 1 == n ==> BlockWord(mem[i..i + n], j) == Word(mem[i + 4 * j], 0, 0, 0)
    ensures n <= 4 * j ==> BlockWord(mem[i..i + n], j) == 0
  {
  }

  lemma MaskedRead(mem: Memory, i: nat)
    requires i + 4 <= |mem|
    ensures And(Read32(mem, i), 0xffffff) == Word(mem[i], mem[i + 1], mem[i + 2], 0)
    ensures And(Read32(mem, i), 0xffff) == Word(mem[i], mem[i + 1], 0, 0)
    ensures And(Read32(mem, i), 0xff) == Word(mem[i], 0, 0, 0)
  {
    MaskedWord(mem[i], mem[i + 1], mem[i + 2], mem[i + 3]);
  }

  /** The last block by 32-bit reads: whole words are read and the tail is masked off. */
  method LastWords(mem: Memory, i: nat, n: nat, st: State) returns (r: State)
    requires st.Words() && 0 < n <= 12 && i + (n + 3) / 4 * 4 <= |mem|
    ensures r == AddBlock(st, mem[i..i + n])
  {
    hide Plus, And, Word, BlockWord, Read32;
    var a, b, c := st.a, st.b, st.c;
    PlusZero(a);
    PlusZero(b);
    PlusZero(c);
    BlockAt(mem, i, n, 0);
    BlockAt(mem, i, n, 1);
    BlockAt(mem, i, n, 2);
    MaskedRead(mem, i + (n - 1) / 4 * 4);
    match n {
      case 12 =>
        c := Plus(c, Read32(mem, i + 8));
        b := Plus(b, Read32(mem, i + 4));
        a := Plus(a, Read32(mem, i));
      case 11 =>
        c := Plus(c, And(Read32(mem, i + 8), 0xffffff));
        b := Plus(b, Read32(mem, i + 4));
        a := Plus(a, Read32(mem, i));
      case 10 =>
        c := Plus(c, And(Read32(mem, i + 8), 0xffff));
        b := Plus(b, Read32(mem, i + 4));
        a := Plus(a, Read32(mem, i));
      case 9 =>
        c := Plus(c, And(Read32(mem, i + 8), 0xff));
        b := Plus(b, Read32(mem, i + 4));
        a := Plus(a, Read32(mem, i));
      case 8 =>
        b := Plus(b, Read32(mem, i + 4));
        a := Plus(a, Read32(mem, i));
      case 7 =>
        b := Plus(b, And(Read32(mem, i + 4), 0xffffff));
        a := Plus(a, Read32(mem, i));
      case 6 =>
        b := Plus(b, And(Read32(mem, i + 4), 0xffff));
        a := Plus(a, Read32(mem, i));
      case 5 =>
        b := Plus(b, And(Read32(mem, i + 4), 0xff));
        a := Plus(a, Read32(mem, i));
      case 4 =>
        a := Plus(a, Read32(mem, i));
      case 3 =>
        a := Plus(a, And(Read32(mem, i), 0xffffff));
      case 2 =>
        a := Plus(a, And(Read32(mem, i), 0xffff));
      case 1 =>
        a := Plus(a, And(Read32(mem, i), 0xff));
      case _ =>
        assert false;
    }
    r := State(a, b, c);
  }

  /** hashlittle on a 4-aligned key; the bytes behind the key, up to the next word, may be anything. */
  method HashWords(mem: Memory, length: nat, seed: nat) returns (h: nat)
    requires (length + 3) / 4 * 4 <= |mem|
    ensures h == HashLittle(mem[..length], seed)
  {
    hide Plus, Mix, Final, AddBlock, Start, Blocks;
    ghost var key := mem[..length];
    var st := Start(length, seed);
    var n := length;
    var i := 0;
    while n > 12
      invariant i % 4 == 0 && i + n == length && st.Words()
      invariant Blocks(Start(length, seed), key) == Blocks(st, key[i..])
    {
      BlocksStep(st, key[i..]);
      assert key[i..][..12] == mem[i..i + 12] && key[i..][12..] == key[i + 12..];
      FullBlock(mem, i, st);
      st := Mix(State(Plus(st.a, Read32(mem, i)), Plus(st.b, Read32(mem, i + 4)), Plus(st.c, Read32(mem, i + 8))));
      n := n - 12;
      i := i + 12;
    }
    BlocksEnd(st, key[i..]);
    if n == 0 {
      return st.c;
    }
    assert key[i..] == mem[i..i + n];
    st := LastWords(mem, i, n, st);
    return Final(st);
  }

  lemma BlocksStep(st: State, key: Memory)
    requires st.Words() && |key| > 12
    ensures Blocks(st, key) == Blocks(Mix(AddBlock(st, key[..12])), key[12..])
  {
  }

  lemma BlocksEnd(st: State, key: Memory)
    requires st.Words() && |key| <= 12
    ensures Blocks(st, key) == (st, key)
  {
  }

  lemma FullBlock(mem: Memory, i: nat, st: State)
    requires st.Words() && i + 12 <= |mem|
    ensures AddBlock(st, mem[i..i + 12]) ==
      State(Plus(st.a, Read32(mem, i)), Plus(st.b, Read32(mem, i + 4)), Plus(st.c, Read32(mem, i + 8)))
  {
    BlockAt(mem, i, 12, 0);
    BlockAt(mem, i, 12, 1);
    BlockAt(mem, i, 12, 2);
  }

  lemma Plus3(a: nat, x: nat, y: nat, z: nat)
    ensures Plus(Plus(Plus(a, x), y), z) == Plus(a, x + y + z)
  {
    hide Plus;
    PlusPlus(a, x, y);
    PlusPlus(a, x + y, z);
  }

  lemma Plus4(a: nat, x: nat, y: nat, z: nat, w: nat)
    ensures Plus(Plus(Plus(Plus(a, x), y), z), w) == Plus(a, x + y + z + w)
  {
    hide Plus;
    Plus3(a, x, y, z);
    PlusPlus(a, x + y + z, w);
  }

  /** Four bytes added one at a time, from either end, are a word added. */
  lemma BytesAdded(mem: Memory, p: nat, v: nat)
    requires p + 4 <= |mem|
    ensures Plus(Plus(Plus(Plus(v, mem[p] as int), ShiftLeft(mem[p + 1] as int, 8)), ShiftLeft(mem[p + 2] as int, 16)), ShiftLeft(mem[p + 3] as int, 24))
         == Plus(v, Read32(mem, p))
    ensures Plus(Plus(Plus(Plus(v, ShiftLeft(mem[p + 3] as int, 24)), ShiftLeft(mem[p + 2] as int, 16)), ShiftLeft(mem[p + 1] as int, 8)), mem[p] as int)
         == Plus(v, Read32(mem, p))
  {
    hide Plus, ShiftLeft;
    var b0, b1, b2, b3 := mem[p] as int, mem[p + 1] as int, mem[p + 2] as int, mem[p + 3] as int;
    Shifted(b1);
    Shifted(b2);
    Shifted(b3);
    Plus4(v, b0, 0x100 * b1, 0x1_0000 * b2, 0x100_0000 * b3);
    Plus4(v, 0x100_0000 * b3, 0x1_0000 * b2, 0x100 * b1, b0);
  }

  /** The same for one, two or three bytes, from the last one down. */
  lemma TailAdded(mem: Memory, p: nat, k: nat, v: nat)
    requires p + k <= |mem| && k < 4
    ensures k == 3 ==>
      Plus(Plus(Plus(v, ShiftLeft(mem[p + 2] as int, 16)), ShiftLeft(mem[p + 1] as int, 8)), mem[p] as int)
        == Plus(v, Word(mem[p], mem[p + 1], mem[p + 2], 0))
    ensures k == 2 ==>
      Plus(Plus(v, ShiftLeft(mem[p + 1] as int, 8)), mem[p] as int) == Plus(v, Word(mem[p], mem[p + 1], 0, 0))
    ensures k == 1 ==> Plus(v, mem[p] as int) == Plus(v, Word(mem[p], 0, 0, 0))
  {
    hide Plus, ShiftLeft;
    if k >= 2 {
      Shifted(mem[p + 1] as int);
    }
    if k == 3 {
      Shifted(mem[p + 2] as int);
      Plus3(v, 0x1_0000 * mem[p + 2] as int, 0x100 * mem[p + 1] as int, mem[p] as int);
    } else if k == 2 {
      PlusPlus(v, 0x100 * mem[p + 1] as int, mem[p] as int);
    }
  }

  /** And by 16-bit reads. */
  lemma HalvesAdded(mem: Memory, p: nat, k: nat, v: nat)
    requires p + k <= |mem| && 0 < k <= 4
    ensures k == 4 ==> Plus(Read16(mem, p), ShiftLeft(Read16(mem, p + 2), 16)) == Read32(mem, p)
    ensures k == 3 ==> Plus(Plus(v, ShiftLeft(mem[p + 2] as int, 16)), Read16(mem, p)) == Plus(v, Word(mem[p], mem[p + 1], mem[p + 2], 0))
    ensures k == 2 ==> Plus(v, Read16(mem, p)) == Plus(v, Word(mem[p], mem[p + 1], 0, 0))
    ensures k == 1 ==> Plus(v, mem[p] as int) == Plus(v, Word(mem[p], 0, 0, 0))
  {
    hide ShiftLeft;
    if k == 4 {
      Shifted(Read16(mem, p + 2));
    } else if k == 3 {
      Shifted(mem[p + 2] as int);
      hide Plus;
      PlusPlus(v, 0x1_0000 * mem[p + 2] as int, Read16(mem, p));
    } else {
      hide Plus;
    }
  }

  /** The last block by 16-bit reads. */
  method LastHalves(mem: Memory, i: nat, n: nat, st: State) returns (r: State)
    requires st.Words() && 0 < n <= 12 && i + n <= |mem|
    ensures r == AddBlock(st, mem[i..i + n])
  {
    hide Plus, ShiftLeft, Word, BlockWord, Read32, Read16;
    var a, b, c := st.a, st.b, st.c;
    PlusZero(a);
    PlusZero(b);
    PlusZero(c);
    BlockAt(mem, i, n, 0);
    BlockAt(mem, i, n, 1);
    BlockAt(mem, i, n, 2);
    forall p | 0 <= p && p + 4 <= |mem|
      ensures Plus(Read16(mem, p), ShiftLeft(Read16(mem, p + 2), 16)) == Read32(mem, p)
    {
      HalvesAdded(mem, p, 4, 0);
    }
    if n % 4 != 0 {
      HalvesAdded(mem, i + n / 4 * 4, n % 4, if n < 4 then a else if n < 8 then b else c);
    }
    match n {
      case 12 =>
        c := Plus(c, Plus(Read16(mem, i + 8), ShiftLeft(Read16(mem, i + 10), 16)));
        b := Plus(b, Plus(Read16(mem, i + 4), ShiftLeft(Read16(mem, i + 6), 16)));
        a := Plus(a, Plus(Read16(mem, i), ShiftLeft(Read16(mem, i + 2), 16)));
      case 11 =>
        c := Plus(c, ShiftLeft(mem[i + 10] as int, 16));
        c := Plus(c, Read16(mem, i + 8));
        b := Plus(b, Plus(Read16(mem, i + 4), ShiftLeft(Read16(mem, i + 6), 16)));
        a := Plus(a, Plus(Read16(mem, i), ShiftLeft(Read16(mem, i + 2), 16)));
      case 10 =>
        c := Plus(c, Read16(mem, i + 8));
        b := Plus(b, Plus(Read16(mem, i + 4), ShiftLeft(Read16(mem, i + 6), 16)));
        a := Plus(a, Plus(Read16(mem, i), ShiftLeft(Read16(mem, i + 2), 16)));
      case 9 =>
        c := Plus(c, mem[i + 8] as int);
        b := Plus(b, Plus(Read16(mem, i + 4), ShiftLeft(Read16(mem, i + 6), 16)));
        a := Plus(a, Plus(Read16(mem, i), ShiftLeft(Read16(mem, i + 2), 16)));
      case 8 =>
        b := Plus(b, Plus(Read16(mem, i + 4), ShiftLeft(Read16(mem, i + 6), 16)));
        a := Plus(a, Plus(Read16(mem, i), ShiftLeft(Read16(mem, i + 2), 16)));
      case 7 =>
        b := Plus(b, ShiftLeft(mem[i + 6] as int, 16));
        b := Plus(b, Read16(mem, i + 4));
        a := Plus(a, Plus(Read16(mem, i), ShiftLeft(Read16(mem, i + 2), 16)));
      case 6 =>
        b := Plus(b, Read16(mem, i + 4));
        a := Plus(a, Plus(Read16(mem, i), ShiftLeft(Read16(mem, i + 2), 16)));
      case 5 =>
        b := Plus(b, mem[i + 4] as int);
        a := Plus(a, Plus(Read16(mem, i), ShiftLeft(Read16(mem, i + 2), 16)));
      case 4 =>
        a := Plus(a, Plus(Read16(mem, i), ShiftLeft(Read16(mem, i + 2), 16)));
      case 3 =>
        a := Plus(a, ShiftLeft(mem[i + 2] as int, 16));
        a := Plus(a, Read16(mem, i));
      case 2 =>
        a := Plus(a, Read16(mem, i));
      case 1 =>
        a := Plus(a, mem[i] as int);
      case _ =>
        assert false;
    }
    r := State(a, b, c);
  }

  /** The last block byte by byte; every case falls through to the next. */
  method LastBytes(mem: Memory, i: nat, n: nat, st: State) returns (r: State)
    requires st.Words() && 0 < n <= 12 && i + n <= |mem|
    ensures r == AddBlock(st, mem[i..i + n])
  {
    hide Plus, ShiftLeft, Word, BlockWord, Read32;
    var a, b, c := st.a, st.b, st.c;
    PlusZero(a);
    PlusZero(b);
    PlusZero(c);
    BlockAt(mem, i, n, 0);
    BlockAt(mem, i, n, 1);
    BlockAt(mem, i, n, 2);
    if n >= 4 {
      BytesAdded(mem, i, a);
    }
    if n >= 8 {
      BytesAdded(mem, i + 4, b);
    }
    if n >= 12 {
      BytesAdded(mem, i + 8, c);
    } else {
      TailAdded(mem, i + n / 4 * 4, n % 4, if n < 4 then a else if n < 8 then b else c);
    }
    if n >= 12 {
      c := Plus(c, ShiftLeft(mem[i + 11] as int, 24));
    }
    if n >= 11 {
      c := Plus(c, ShiftLeft(mem[i + 10] as int, 16));
    }
    if n >= 10 {
      c := Plus(c, ShiftLeft(mem[i + 9] as int, 8));
    }
    if n >= 9 {
      c := Plus(c, mem[i + 8] as int);
    }
    if n >= 8 {
      b := Plus(b, ShiftLeft(mem[i + 7] as int, 24));
    }
    if n >= 7 {
      b := Plus(b, ShiftLeft(mem[i + 6] as int, 16));
    }
    if n >= 6 {
      b := Plus(b, ShiftLeft(mem[i + 5] as int, 8));
    }
    if n >= 5 {
      b := Plus(b, mem[i + 4] as int);
    }
    if n >= 4 {
      a := Plus(a, ShiftLeft(mem[i + 3] as int, 24));
    }
    if n >= 3 {
      a := Plus(a, ShiftLeft(mem[i + 2] as int, 16));
    }
    if n >= 2 {
      a := Plus(a, ShiftLeft(mem[i + 1] as int, 8));
    }
    a := Plus(a, mem[i] as int);
    r := State(a, b, c);
  }

  /** hashlittle on a 2-aligned key. */
  method HashHalves(mem: Memory, length: nat, seed: nat) returns (h: nat)
    requires length <= |mem|
    ensures h == HashLittle(mem[..length], seed)
  {
    hide Plus, Mix, Final, AddBlock, Start, Blocks;
    ghost var key := mem[..length];
    var st := Start(length, seed);
    var n := length;
    var i := 0;
    while n > 12
      invariant i + n == length && st.Words()
      invariant Blocks(Start(length, seed), key) == Blocks(st, key[i..])
    {
      BlocksStep(st, key[i..]);
      assert key[i..][..12] == mem[i..i + 12] && key[i..][12..] == key[i + 12..];
      FullBlock(mem, i, st);
      HalvesAdded(mem, i, 4, 0);
      HalvesAdded(mem, i + 4, 4, 0);
      HalvesAdded(mem, i + 8, 4, 0);
      st := Mix(State(Plus(st.a, Plus(Read16(mem, i), ShiftLeft(Read16(mem, i + 2), 16))),
                      Plus(st.b, Plus(Read16(mem, i + 4), ShiftLeft(Read16(mem, i + 6), 16))),
                      Plus(st.c, Plus(Read16(mem, i + 8), ShiftLeft(Read16(mem, i + 10), 16)))));
      n := n - 12;
      i := i + 12;
    }
    BlocksEnd(st, key[i..]);
    if n == 0 {
      return st.c;
    }
    assert key[i..] == mem[i..i + n];
    st := LastHalves(mem, i, n, st);
    return Final(st);
  }

  /** hashlittle on any other key. */
  method HashBytes(mem: Memory, length: nat, seed: nat) returns (h: nat)
    requires length <= |mem|
    ensures h == HashLittle(mem[..length], seed)
  {
    hide Plus, Mix, Final, AddBlock, Start, Blocks;
    ghost var key := mem[..length];
    var st := Start(length, seed);
    var n := length;
    var i := 0;
    while n > 12
      invariant i + n == length && st.Words()
      invariant Blocks(Start(length, seed), key) == Blocks(st, key[i..])
    {
      BlocksStep(st, key[i..]);
      assert key[i..][..12] == mem[i..i + 12] && key[i..][12..] == key[i + 12..];
      FullBlock(mem, i, st);
      BytesAdded(mem, i, st.a);
      BytesAdded(mem, i + 4, st.b);
      BytesAdded(mem, i + 8, st.c);
      var a := Plus(Plus(Plus(Plus(st.a, mem[i] as int), ShiftLeft(mem[i + 1] as int, 8)), ShiftLeft(mem[i + 2] as int, 16)), ShiftLeft(mem[i + 3] as int, 24));
      var b := Plus(Plus(Plus(Plus(st.b, mem[i + 4] as int), ShiftLeft(mem[i + 5] as int, 8)), ShiftLeft(mem[i + 6] as int, 16)), ShiftLeft(mem[i + 7] as int, 24));
      var c := Plus(Plus(Plus(Plus(st.c, mem[i + 8] as int), ShiftLeft(mem[i + 9] as int, 8)), ShiftLeft(mem[i + 10] as int, 16)), ShiftLeft(mem[i + 11] as int, 24));
      st := Mix(State(a, b, c));
      n := n - 12;
      i := i + 12;
    }
    BlocksEnd(st, key[i..]);
    if n == 0 {
      return st.c;
    }
    assert key[i..] == mem[i..i + n];
    st := LastBytes(mem, i, n, st);
    return Final(st);
  }
}
