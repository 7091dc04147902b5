/**
  * Streaming SHA-256 of src/external/sha256.c against the standard's definition on whole messages
  * (FIPS 180-4: padding in section 5.1.1, the hash computation in section 6.2.2).
  */
module Sha256 {
  import opened Bytes
  import opened Bits

  /** The round constants, eight to a row. */
  const K_ROWS: seq<seq<nat>> := [
    [0x428a2f98, 0x71374491, 0xb5c0fbcf, 0xe9b5dba5, 0x3956c25b, 0x59f111f1, 0x923f82a4, 0xab1c5ed5],
    [0xd807aa98, 0x12835b01, 0x243185be, 0x550c7dc3, 0x72be5d74, 0x80deb1fe, 0x9bdc06a7, 0xc19bf174],
    [0xe49b69c1, 0xefbe4786, 0x0fc19dc6, 0x240ca1cc, 0x2de92c6f, 0x4a7484aa, 0x5cb0a9dc, 0x76f988da],
    [0x983e5152, 0xa831c66d, 0xb00327c8, 0xbf597fc7, 0xc6e00bf3, 0xd5a79147, 0x06ca6351, 0x14292967],
    [0x27b70a85, 0x2e1b2138, 0x4d2c6dfc, 0x53380d13, 0x650a7354, 0x766a0abb, 0x81c2c92e, 0x92722c85],
    [0xa2bfe8a1, 0xa81a664b, 0xc24b8b70, 0xc76c51a3, 0xd192e819, 0xd6990624, 0xf40e3585, 0x106aa070],
    [0x19a4c116, 0x1e376c08, 0x2748774c, 0x34b0bcb5, 0x391c0cb3, 0x4ed8aa4a, 0x5b9cca4f, 0x682e6ff3],
    [0x748f82ee, 0x78a5636f, 0x84c87814, 0x8cc70208, 0x90befffa, 0xa4506ceb, 0xbef9a3f7, 0xc67178f2]]

  const K: seq<nat> :=
    K_ROWS[0] + K_ROWS[1] + K_ROWS[2] + K_ROWS[3] + K_ROWS[4] + K_ROWS[5] + K_ROWS[6] + K_ROWS[7]

  const INITIAL: seq<nat> := [
    0x6a09e667, 0xbb67ae85, 0x3c6ef372, 0xa54ff53a, 0x510e527f, 0x9b05688c, 0x1f83d9ab, 0x5be0cd19]

  // ---- The functions of section 4.1.2 ----

  function RotateRight(x: nat, n: nat): nat
    requires n <= 32
  {
    Or(ShiftRight(x, n), ShiftLeft(x, 32 - n))
  }

  function Not(x: nat): nat {
    if x < WORD then WORD - 1 - x else 0
  }

  function Ch(x: nat, y: nat, z: nat): nat { Xor(And(x, y), And(Not(x), z)) }
  function Maj(x: nat, y: nat, z: nat): nat { Xor(Xor(And(x, y), And(x, z)), And(y, z)) }
  function Ep0(x: nat): nat { Xor(Xor(RotateRight(x, 2), RotateRight(x, 13)), RotateRight(x, 22)) }
  function Ep1(x: nat): nat { Xor(Xor(RotateRight(x, 6), RotateRight(x, 11)), RotateRight(x, 25)) }
  function Sig0(x: nat): nat { Xor(Xor(RotateRight(x, 7), RotateRight(x, 18)), ShiftRight(x, 3)) }
  function Sig1(x: nat): nat { Xor(Xor(RotateRight(x, 17), RotateRight(x, 19)), ShiftRight(x, 10)) }

  // ---- The hash of a whole message ----

  /** Four bytes as a big-endian word. */
  function BigEndian(b0: byte, b1: byte, b2: byte, b3: byte): nat {
    0x100_0000 * b0 as int + 0x1_0000 * b1 as int + 0x100 * b2 as int + b3 as int
  }

  /** The message schedule. */
  function Schedule(block: seq<byte>, t: nat): nat
    requires |block| == 64
  {
    if t < 16 then BigEndian(block[4 * t], block[4 * t + 1], block[4 * t + 2], block[4 * t + 3])
    else
      Plus(Plus(Plus(Sig1(Schedule(block, t - 2)), Schedule(block, t - 7)), Sig0(Schedule(block, t - 15))), Schedule(block, t - 16))
  }

  datatype Vars = Vars(a: nat, b: nat, c: nat, d: nat, e: nat, f: nat, g: nat, h: nat)

  function Round(v: Vars, k: nat, w: nat): Vars {
    var t1 := Plus(Plus(Plus(Plus(v.h, Ep1(v.e)), Ch(v.e, v.f, v.g)), k), w);
    var t2 := Plus(Ep0(v.a), Maj(v.a, v.b, v.c));
    Vars(Plus(t1, t2), v.a, v.b, v.c, Plus(v.d, t1), v.e, v.f, v.g)
  }

  /** The working variables after the first t rounds. */
  function Rounds(v: Vars, block: seq<byte>, t: nat): Vars
    requires |block| == 64 && t <= 64
  {
    if t == 0 then v else Round(Rounds(v, block, t - 1), K[t - 1], Schedule(block, t - 1))
  }

  /** One block's effect on the hash value. */
  function Compress(h: seq<nat>, block: seq<byte>): (r: seq<nat>)
    requires |h| == 8 && |block| == 64
    ensures |r| == 8
  {
    var v := Rounds(Vars(h[0], h[1], h[2], h[3], h[4], h[5], h[6], h[7]), block, 64);
    [Plus(h[0], v.a), Plus(h[1], v.b), Plus(h[2], v.c), Plus(h[3], v.d),
     Plus(h[4], v.e), Plus(h[5], v.f), Plus(h[6], v.g), Plus(h[7], v.h)]
  }

  function HashBlocks(blocks: seq<byte>): (r: seq<nat>)
    requires |blocks| % 64 == 0
    ensures |r| == 8
  {
    if blocks == [] then INITIAL else Compress(HashBlocks(blocks[..|blocks| - 64]), blocks[|blocks| - 64..])
  }

  function Zeros(n: nat): (z: seq<byte>)
    ensures |z| == n && forall i :: 0 <= i < n ==> z[i] == 0
  {
    seq(n, _ => 0)
  }

  /** The low byte of v / 256^k. */
  function Octet(v: nat, k: nat): byte {
    ShiftRight(v, 8 * k) % 0x100
  }

  function LengthBytes(bits: nat): (s: seq<byte>)
    ensures |s| == 8
  {
    [Octet(bits, 7), Octet(bits, 6), Octet(bits, 5), Octet(bits, 4), Octet(bits, 3), Octet(bits, 2), Octet(bits, 1), Octet(bits, 0)]
  }

  /** Section 5.1.1: a one bit, the fewest zero bits that fit, and the length in 64 bits. */
  function Padding(n: nat): (p: seq<byte>)
    ensures |p| == 1 + ZeroCount(n) + 8
  {
    [0x80] + Zeros(ZeroCount(n)) + LengthBytes(8 * n)
  }

  function Padded(m: seq<byte>): (p: seq<byte>)
    ensures |p| == |m| + 1 + ZeroCount(|m|) + 8 && |p| % 64 == 0 && |p| >= 64
  {
    m + Padding(|m|)
  }

  lemma ZeroCountIsLeast(n: nat, j: nat)
    requires j < ZeroCount(n)
    ensures (n + 1 + j) % 64 != 56
  {
  }

  /** The padded message up to its last block, and that block up to the length. */
  ghost function Front(m: seq<byte>): (f: seq<byte>)
    ensures |f| % 64 == 0
  {
    var p := Padded(m);
    assert (|p| - 64) % 64 == 0;
    p[..|p| - 64]
  }

  ghost function Rear(m: seq<byte>): seq<byte> {
    Padded(m)[|Padded(m)| - 64..|Padded(m)| - 8]
  }

  /** The least k with n + 1 + k = 56 modulo 64, in bytes. */
  function ZeroCount(n: nat): (k: nat)
    ensures k < 64 && (n + 1 + k + 8) % 64 == 0
  {
    var r := n % 64;
    if r < 56 then 55 - r else 119 - r
  }

  function WordBytes(w: nat): seq<byte> {
    [Octet(w, 3), Octet(w, 2), Octet(w, 1), Octet(w, 0)]
  }

  function Output(h: seq<nat>): seq<byte> {
    if h == [] then [] else WordBytes(h[0]) + Output(h[1..])
  }

  function Digest(m: seq<byte>): seq<byte> {
    Output(HashBlocks(Padded(m)))
  }

  // ---- The code ----

  /** (b0 << 24) | (b1 << 16) | (b2 << 8) | b3 */
  function Packed(b0: byte, b1: byte, b2: byte, b3: byte): nat {
    Or(Or(Or(ShiftLeft(b0 as int, 24), ShiftLeft(b1 as int, 16)), ShiftLeft(b2 as int, 8)), b3 as int)
  }

  lemma PackedIsBigEndian(b0: byte, b1: byte, b2: byte, b3: byte)
    ensures Packed(b0, b1, b2, b3) == BigEndian(b0, b1, b2, b3)
  {
    var x, y, z, w := b0 as int, b1 as int, b2 as int, b3 as int;
    hide Or, Pow2, ShiftLeft;
    WordIsPow2();
    Shifted(x);
    Shifted(y);
    Shifted(z);
    OrAdds(x, 0x1_0000 * y, 24, 0x100_0000);
    assert Or(ShiftLeft(x, 24), ShiftLeft(y, 16)) == 0x100_0000 * x + 0x1_0000 * y;
    OrAdds(0x100 * x + y, 0x100 * z, 16, 0x1_0000);
    assert Or(Or(ShiftLeft(x, 24), ShiftLeft(y, 16)), ShiftLeft(z, 8)) == 0x100_0000 * x + 0x1_0000 * y + 0x100 * z;
    OrAdds(0x1_0000 * x + 0x100 * y + z, w, 8, 0x100);
  }

  class Context {
    var data: array<byte>
    var datalen: nat
    var bitlen: nat
    var state: array<nat>
    ghost var fed: seq<byte>   // the message so far

    ghost predicate Valid()
      reads this, data, state
    {
      && data.Length == 64 && state.Length == 8 && datalen < 64 && datalen <= |fed| && (|fed| - datalen) % 64 == 0
      && data[..datalen] == fed[|fed| - datalen..]
      && bitlen == 8 * (|fed| - datalen)
      && state[..] == HashBlocks(fed[..|fed| - datalen])
    }

    /** sha256_init */
    constructor ()
      ensures Valid() && fed == [] && fresh(data) && fresh(state)
    {
      data := new byte[64](_ => 0);
      datalen := 0;
      bitlen := 0;
      var s := new nat[8](i requires 0 <= i < 8 => INITIAL[i]);
      state := s;
      fed := [];
      new;
      assert state[..] == INITIAL;
    }

    /** The message schedule of sha256_transform. */
    method Expand() returns (m: array<nat>)
      requires data.Length == 64
      ensures m.Length == 64 && forall t :: 0 <= t < 64 ==> m[t] == Schedule(data[..], t)
    {
      hide Schedule, Plus, Sig0, Sig1, BigEndian, Packed;
      m := new nat[64](_ => 0);
      var i, j := 0, 0;
      while i < 16
        invariant 0 <= i <= 16 && j == 4 * i
        invariant forall t :: 0 <= t < i ==> m[t] == Schedule(data[..], t)
      {
        PackedIsBigEndian(data[j], data[j + 1], data[j + 2], data[j + 3]);
        ScheduleStart(data[..], i);
        m[i] := Packed(data[j], data[j + 1], data[j + 2], data[j + 3]);
        i, j := i + 1, j + 4;
      }
      while i < 64
        invariant 16 <= i <= 64
        invariant forall t :: 0 <= t < i ==> m[t] == Schedule(data[..], t)
      {
        ScheduleNext(data[..], i);
        m[i] := Plus(Plus(Plus(Sig1(m[i - 2]), m[i - 7]), Sig0(m[i - 15])), m[i - 16]);
        i := i + 1;
      }
    }

    /** sha256_transform */
    method Transform()
      requires data.Length == 64 && state.Length == 8
      modifies state
      ensures state[..] == Compress(old(state[..]), data[..])
    {
      hide Schedule, Round, Rounds, Ep0, Ep1, Ch, Maj, Plus;
      RoundsNone(Vars(state[0], state[1], state[2], state[3], state[4], state[5], state[6], state[7]), data[..]);
      ghost var block := data[..];
      var m := Expand();
      var a, b, c, d, e, f, g, h := state[0], state[1], state[2], state[3], state[4], state[5], state[6], state[7];
      ghost var v0 := Vars(a, b, c, d, e, f, g, h);
      var i := 0;
      while i < 64
        invariant 0 <= i <= 64 && state[..] == old(state[..]) && forall t :: 0 <= t < 64 ==> m[t] == Schedule(block, t)
        invariant Vars(a, b, c, d, e, f, g, h) == Rounds(v0, block, i)
      {
        var t1 := Plus(Plus(Plus(Plus(h, Ep1(e)), Ch(e, f, g)), K[i]), m[i]);
        var t2 := Plus(Ep0(a), Maj(a, b, c));
        RoundStep(Vars(a, b, c, d, e, f, g, h), K[i], m[i]);
        RoundsNext(v0, block, i);
        h := g;
        g := f;
        f := e;
        e := Plus(d, t1);
        d := c;
        c := b;
        b := a;
        a := Plus(t1, t2);
        i := i + 1;
      }
      state[0] := Plus(state[0], a);
      state[1] := Plus(state[1], b);
      state[2] := Plus(state[2], c);
      state[3] := Plus(state[3], d);
      state[4] := Plus(state[4], e);
      state[5] := Plus(state[5], f);
      state[6] := Plus(state[6], g);
      state[7] := Plus(state[7], h);
      assert state[..] == [state[0], state[1], state[2], state[3], state[4], state[5], state[6], state[7]];
    }

    /** One turn of sha256_update's loop. */
    method Feed(b: byte)
      requires Valid()
      modifies this`datalen, this`bitlen, this`fed, data, state
      ensures Valid() && fed == old(fed) + [b]
    {
      hide Compress, HashBlocks;
      ghost var start := |fed| - datalen;
      data[datalen] := b;
      datalen := datalen + 1;
      fed := fed + [b];
      assert data[..datalen] == fed[start..] && fed[..start] == old(fed)[..start];
      if datalen == 64 {
        assert data[..] == data[..datalen];
        NextBlock(fed, start);
        Transform();
        bitlen := bitlen + 512;
        datalen := 0;
        assert fed[..|fed|] == fed;
      }
    }

    /** sha256_update: whatever the calls, the message is what was fed in all. */
    method Update(input: seq<byte>)
      requires Valid() && |input| < WORD
      modifies this`datalen, this`bitlen, this`fed, data, state
      ensures Valid() && fed == old(fed) + input
    {
      hide Valid;
      var i := 0;
      while i < |input|
        invariant 0 <= i <= |input| && Valid() && fed == old(fed) + input[..i]
      {
        Feed(input[i]);
        i := i + 1;
      }
      assert input[..i] == input;
    }

    /** sha256_final up to the length: the padding of section 5.1.1, with a block more where it does not fit. */
    method Pad()
      requires Valid()
      modifies data, state
      ensures data.Length == 64 && state[..] == HashBlocks(Front(fed)) && data[..56] == Rear(fed)
    {
      hide Compress, HashBlocks, Padded, Padding;
      ghost var p, tail := Padded(fed), fed[|fed| - datalen..];
      ghost var start := |fed| - datalen;
      PaddedBlocks(fed, start);
      if datalen < 56 {
        Fill(56);
      } else {
        Fill(64);
        assert data[..] == data[..64];
        Transform();
        NextBlock(p[..start + 64], start);
        assert p[..start + 64][..start] == p[..start] && p[..start + 64][start..] == p[start..start + 64];
        forall k | 0 <= k < 56 {
          data[k] := 0;
        }
        assert data[..56] == Zeros(56);
      }
    }

    /** A one bit and zeros behind the buffered bytes. */
    method Fill(to: nat)
      requires data.Length == 64 && datalen < to <= 64
      modifies data
      ensures data[..to] == old(data[..datalen]) + [0x80] + Zeros(to - datalen - 1)
    {
      var i := datalen;
      data[i] := 0x80;
      i := i + 1;
      while i < to
        invariant datalen < i <= to && data[..i] == old(data[..datalen]) + [0x80] + Zeros(i - datalen - 1)
      {
        data[i] := 0;
        i := i + 1;
        assert Zeros(i - datalen - 1) == Zeros(i - datalen - 2) + [0];
      }
    }

    /** The length in bits at the end of the block. */
    method PutLength()
      requires data.Length == 64
      modifies data
      ensures data[..] == old(data[..56]) + LengthBytes(bitlen)
    {
      hide Octet;
      data[63] := Octet(bitlen, 0);
      data[62] := Octet(bitlen, 1);
      data[61] := Octet(bitlen, 2);
      data[60] := Octet(bitlen, 3);
      data[59] := Octet(bitlen, 4);
      data[58] := Octet(bitlen, 5);
      data[57] := Octet(bitlen, 6);
      data[56] := Octet(bitlen, 7);
      assert data[56..] == LengthBytes(bitlen);
      assert data[..] == data[..56] + data[56..];
    }

    /** sha256_final: the digest of the whole message. */
    method Final() returns (hash: array<byte>)
      requires Valid() && 8 * |fed| < WORD * WORD
      modifies this`bitlen, data, state
      ensures hash.Length == 32 && hash[..] == Digest(fed)
    {
      hide Compress, HashBlocks, Octet, Padded, And, ShiftRight;
      ghost var p := Padded(fed);
      PaddedLength(fed);
      Pad();
      bitlen := bitlen + datalen * 8;
      PutLength();
      assert p[|p| - 64..] == p[|p| - 64..|p| - 8] + p[|p| - 8..];
      NextBlock(p, |p| - 64);
      Transform();
      hash := BigEndianBytes();
    }

    /** The final state, most significant byte first. */
    method BigEndianBytes() returns (hash: array<byte>)
      requires state.Length == 8
      ensures hash.Length == 32 && hash[..] == Output(state[..])
    {
      hide And, ShiftRight, Octet, Output;
      hash := new byte[32](_ => 0);
      var i := 0;
      while i < 4
        invariant 0 <= i <= 4
        invariant forall k :: 0 <= k < i ==> Column(state[..], hash[..], k)
      {
        ghost var was := hash[..];
        WriteColumn(hash, i);
        forall k | 0 <= k < i
          ensures Column(state[..], hash[..], k)
        {
          assert Column(state[..], was, k);
        }
        i := i + 1;
      }
      OutputBytes(state[..], hash[..]);
    }

    /** One turn of the output loop. */
    method WriteColumn(hash: array<byte>, i: nat)
      requires state.Length == 8 && hash.Length == 32 && i < 4
      modifies hash
      ensures Column(state[..], hash[..], i)
      ensures forall j :: 0 <= j < 32 && j % 4 != i ==> hash[j] == old(hash[j])
    {
      hide And, ShiftRight, Octet;
      OctetMasks(state[..], 3 - i);
      hash[i] := And(ShiftRight(state[0], 24 - i * 8), 0xff);
      hash[i + 4] := And(ShiftRight(state[1], 24 - i * 8), 0xff);
      hash[i + 8] := And(ShiftRight(state[2], 24 - i * 8), 0xff);
      hash[i + 12] := And(ShiftRight(state[3], 24 - i * 8), 0xff);
      hash[i + 16] := And(ShiftRight(state[4], 24 - i * 8), 0xff);
      hash[i + 20] := And(ShiftRight(state[5], 24 - i * 8), 0xff);
      hash[i + 24] := And(ShiftRight(state[6], 24 - i * 8), 0xff);
      hash[i + 28] := And(ShiftRight(state[7], 24 - i * 8), 0xff);
    }
  }

  lemma OctetMask(v: nat, k: nat)
    ensures And(ShiftRight(v, 8 * k), 0xff) == Octet(v, k)
  {
    hide And;
    WordIsPow2();
    MaskIsRemainder(ShiftRight(v, 8 * k), 8);
  }

  lemma OctetMasks(h: seq<nat>, k: nat)
    requires |h| == 8
    ensures forall w :: 0 <= w < 8 ==> And(ShiftRight(h[w], 8 * k), 0xff) == Octet(h[w], k)
  {
    hide And, ShiftRight, Octet;
    forall w | 0 <= w < 8
      ensures And(ShiftRight(h[w], 8 * k), 0xff) == Octet(h[w], k)
    {
      OctetMask(h[w], k);
    }
  }

  /** Octet 3 - k of every word stands at place k of its four bytes. */
  ghost predicate Column(h: seq<nat>, bytes: seq<byte>, k: nat)
    requires |h| == 8 && |bytes| == 32 && k < 4
  {
    && bytes[k] == Octet(h[0], 3 - k) && bytes[k + 4] == Octet(h[1], 3 - k)
    && bytes[k + 8] == Octet(h[2], 3 - k) && bytes[k + 12] == Octet(h[3], 3 - k)
    && bytes[k + 16] == Octet(h[4], 3 - k) && bytes[k + 20] == Octet(h[5], 3 - k)
    && bytes[k + 24] == Octet(h[6], 3 - k) && bytes[k + 28] == Octet(h[7], 3 - k)
  }

  lemma OutputBytes(h: seq<nat>, bytes: seq<byte>)
    requires |h| == 8 && |bytes| == 32 && forall k :: 0 <= k < 4 ==> Column(h, bytes, k)
    ensures bytes == Output(h)
  {
    hide Octet;
    forall j | 0 <= j < 32
      ensures bytes[j] == Octet(h[j / 4], 3 - j % 4)
    {
      var k := j % 4;
      assert Column(h, bytes, k);
      assert j / 4 == 0 || j / 4 == 1 || j / 4 == 2 || j / 4 == 3 || j / 4 == 4 || j / 4 == 5 || j / 4 == 6 || j / 4 == 7;
    }
    OutputAt(h, bytes);
  }

  lemma {:induction false} OutputAt(h: seq<nat>, bytes: seq<byte>)
    requires |bytes| == 4 * |h| && forall j :: 0 <= j < |bytes| ==> bytes[j] == Octet(h[j / 4], 3 - j % 4)
    ensures bytes == Output(h)
  {
    hide Octet;
    if h != [] {
      var rest := bytes[4..];
      forall j | 0 <= j < |rest|
        ensures rest[j] == Octet(h[1..][j / 4], 3 - j % 4)
      {
        assert (j + 4) / 4 == j / 4 + 1 && (j + 4) % 4 == j % 4;
        assert rest[j] == bytes[j + 4];
      }
      OutputAt(h[1..], rest);
      assert bytes[..4] == WordBytes(h[0]);
      assert bytes == bytes[..4] + rest;
    }
  }

  lemma PaddedLength(m: seq<byte>)
    ensures |Padded(m)| >= 64 && Padded(m)[|Padded(m)| - 8..] == LengthBytes(8 * |m|)
  {
  }

  lemma Joined(m: seq<byte>, q: seq<byte>, start: nat, j: nat)
    requires start <= |m| && j <= |q|
    ensures (m + q)[start..|m| + j] == m[start..] + q[..j] && (m + q)[..start] == m[..start]
  {
  }

  lemma PaddingParts(n: nat, r: nat)
    requires r == n % 64
    ensures r < 56 ==> |Padding(n)| == 64 - r && Padding(n)[..56 - r] == [0x80] + Zeros(56 - r - 1)
    ensures r >= 56 ==> |Padding(n)| == 128 - r && Padding(n)[..64 - r] == [0x80] + Zeros(64 - r - 1)
    ensures r >= 56 ==> Padding(n)[64 - r..120 - r] == Zeros(56)
  {
    hide LengthBytes;
  }

  /** The padded message behind the last whole block of the message itself. */
  lemma PaddedBlocks(m: seq<byte>, start: nat)
    requires start <= |m| && start % 64 == 0 && |m| - start < 64
    ensures var p, r, tail := Padded(m), |m| - start, m[start..];
      && |p| >= start + 64 && p[..start] == m[..start]
      && (r < 56 ==> |p| == start + 64 && p[start..start + 56] == tail + [0x80] + Zeros(56 - r - 1))
      && (r >= 56 ==> |p| == start + 128 && p[start..start + 64] == tail + [0x80] + Zeros(64 - r - 1) && p[start + 64..start + 120] == Zeros(56))
  {
    hide Padding, Zeros;
    var p, q, r, tail := Padded(m), Padding(|m|), |m| - start, m[start..];
    PaddingParts(|m|, r);
    if r < 56 {
      Joined(m, q, start, 56 - r);
      assert tail + ([0x80] + Zeros(56 - r - 1)) == tail + [0x80] + Zeros(56 - r - 1);
    } else {
      Joined(m, q, start, 64 - r);
      assert tail + ([0x80] + Zeros(64 - r - 1)) == tail + [0x80] + Zeros(64 - r - 1);
      assert p[start + 64..start + 120] == q[64 - r..120 - r];
    }
  }

  lemma NextBlock(m: seq<byte>, start: nat)
    requires start % 64 == 0 && |m| == start + 64
    ensures HashBlocks(m) == Compress(HashBlocks(m[..start]), m[start..])
  {
  }

  lemma ScheduleStart(block: seq<byte>, t: nat)
    requires |block| == 64 && t < 16
    ensures Schedule(block, t) == BigEndian(block[4 * t], block[4 * t + 1], block[4 * t + 2], block[4 * t + 3])
  {
  }

  lemma ScheduleNext(block: seq<byte>, t: nat)
    requires |block| == 64 && 16 <= t
    ensures Schedule(block, t) ==
      Plus(Plus(Plus(Sig1(Schedule(block, t - 2)), Schedule(block, t - 7)), Sig0(Schedule(block, t - 15))), Schedule(block, t - 16))
  {
  }

  lemma RoundsNone(v: Vars, block: seq<byte>)
    requires |block| == 64
    ensures Rounds(v, block, 0) == v
  {
  }

  lemma RoundsNext(v: Vars, block: seq<byte>, t: nat)
    requires |block| == 64 && t < 64
    ensures Rounds(v, block, t + 1) == Round(Rounds(v, block, t), K[t], Schedule(block, t))
  {
  }

  lemma RoundStep(v: Vars, k: nat, w: nat)
    ensures
      var t1 := Plus(Plus(Plus(Plus(v.h, Ep1(v.e)), Ch(v.e, v.f, v.g)), k), w);
      var t2 := Plus(Ep0(v.a), Maj(v.a, v.b, v.c));
      Round(v, k, w) == Vars(Plus(t1, t2), v.a, v.b, v.c, Plus(v.d, t1), v.e, v.f, v.g)
  {
  }
}
