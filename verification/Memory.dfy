/** Blocks of bytes and the library calls that move them. */
module Memory {
  import opened Bytes

  /** Overwrites what stands at position at. */
  function Patched(s: seq<byte>, at: nat, v: seq<byte>): (r: seq<byte>)
    requires at + |v| <= |s|
    ensures |r| == |s| && forall k :: 0 <= k < |s| ==> r[k] == if at <= k < at + |v| then v[k - at] else s[k]
  {
    s[..at] + v + s[at + |v|..]
  }

  /** The len bytes at position at. */
  function Sub(s: seq<byte>, at: nat, len: nat): (r: seq<byte>)
    requires at + len <= |s|
    ensures |r| == len
  {
    s[at..at + len]
  }

  lemma SubPatched(s: seq<byte>, at: nat, v: seq<byte>, q: nat, len: nat)
    requires at + |v| <= |s| && q + len <= |s|
    ensures q == at && len == |v| ==> Sub(Patched(s, at, v), q, len) == v
    ensures q + len <= at || at + |v| <= q || len == 0 ==> Sub(Patched(s, at, v), q, len) == Sub(s, q, len)
  {
    var r := Patched(s, at, v);
    if q + len <= at || at + |v| <= q {
      assert forall k :: q <= k < q + len ==> r[k] == s[k];
      assert r[q..q + len] == s[q..q + len];
    }
  }

  /** A slot inside a moved range keeps its bytes at the new place. */
  lemma SubMoved(s: seq<byte>, to: nat, from: nat, len: nat, d: nat, n: nat)
    requires to + len <= |s| && from + len <= |s| && d + n <= len
    ensures Sub(Patched(s, to, Sub(s, from, len)), to + d, n) == Sub(s, from + d, n)
  {
    var moved := Sub(s, from, len);
    var r := Patched(s, to, moved);
    assert forall k :: to + d <= k < to + d + n ==> r[k] == s[k - to + from];
    assert r[to + d..to + d + n] == s[from + d..from + d + n];
  }

  lemma PatchedNothing(s: seq<byte>, at: nat, v: seq<byte>)
    requires at <= |s| && |v| == 0
    ensures Patched(s, at, v) == s
  {
  }

  /** memmove within a block; the ranges may overlap. */
  method MemMove(block: array<byte>, to: nat, from: nat, len: nat)
    requires to + len <= block.Length && from + len <= block.Length
    modifies block
    ensures block[..] == Patched(old(block[..]), to, Sub(old(block[..]), from, len))
  {
    forall k | 0 <= k < len {
      block[to + k] := block[from + k];
    }
  }

  /** memcpy of a value from outside the block. */
  method MemCopy(block: array<byte>, to: nat, v: seq<byte>)
    requires to + |v| <= block.Length
    modifies block
    ensures block[..] == Patched(old(block[..]), to, v)
  {
    forall k | 0 <= k < |v| {
      block[to + k] := v[k];
    }
  }
}
