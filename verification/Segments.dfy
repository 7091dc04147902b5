/**
  * Bucket segments as pure sequences: ix gives each list position's bucket, and bucket b owns
  * exactly the positions from lo[b] up to hi[b].
  */
module Segments {
  ghost predicate Segmented(ix: seq<nat>, lo: seq<nat>, hi: seq<nat>) {
    && |lo| == |hi|
    && (forall k :: 0 <= k < |ix| ==> ix[k] < |lo|)
    && (forall b :: 0 <= b < |lo| ==> lo[b] <= hi[b] <= |ix|)
    && (forall b, k :: 0 <= b < |lo| && 0 <= k < |ix| ==> (lo[b] <= k < hi[b] <==> ix[k] == b))
  }

  /** Where insert_to_bucket links a node of bucket b: before the bucket's first, or at the end. */
  function Spot(ix: seq<nat>, lo: seq<nat>, hi: seq<nat>, b: nat): (p: nat)
    requires b < |lo| && |lo| == |hi| && lo[b] <= |ix|
    ensures p <= |ix|
  {
    if lo[b] == hi[b] then |ix| else lo[b]
  }

  function InsertAt<T>(s: seq<T>, p: nat, x: T): (r: seq<T>)
    requires p <= |s|
    ensures |r| == |s| + 1
    ensures forall k :: 0 <= k < |r| ==> r[k] == if k < p then s[k] else if k == p then x else s[k - 1]
  {
    s[..p] + [x] + s[p..]
  }

  function RemoveAt<T>(s: seq<T>, p: nat): (r: seq<T>)
    requires p < |s|
    ensures |r| == |s| - 1
    ensures forall k :: 0 <= k < |r| ==> r[k] == if k < p then s[k] else s[k + 1]
  {
    s[..p] + s[p + 1..]
  }

  /** The segments' bounds after a node of bucket b has been linked at its spot. */
  ghost function LowAfter(ix: seq<nat>, lo: seq<nat>, hi: seq<nat>, b: nat): (r: seq<nat>)
    requires Segmented(ix, lo, hi) && b < |lo|
    ensures |r| == |lo|
  {
    var p := Spot(ix, lo, hi, b);
    seq(|lo|, c requires 0 <= c < |lo| => if c == b then p else if lo[c] < hi[c] && lo[c] >= p then lo[c] + 1 else lo[c])
  }

  ghost function HighAfter(ix: seq<nat>, lo: seq<nat>, hi: seq<nat>, b: nat): (r: seq<nat>)
    requires Segmented(ix, lo, hi) && b < |lo|
    ensures |r| == |lo|
  {
    var p := Spot(ix, lo, hi, b);
    seq(|lo|, c requires 0 <= c < |lo| =>
      if c == b then (if lo[b] == hi[b] then p + 1 else hi[b] + 1)
      else if lo[c] < hi[c] && lo[c] >= p then hi[c] + 1 else hi[c])
  }

  lemma InsertSegmented(ix: seq<nat>, lo: seq<nat>, hi: seq<nat>, b: nat)
    requires Segmented(ix, lo, hi) && b < |lo|
    ensures var p := Spot(ix, lo, hi, b); Segmented(InsertAt<nat>(ix, p, b), LowAfter(ix, lo, hi, b), HighAfter(ix, lo, hi, b))
  {
    var p := Spot(ix, lo, hi, b);
    var ix', lo', hi' := InsertAt(ix, p, b), LowAfter(ix, lo, hi, b), HighAfter(ix, lo, hi, b);
    forall c | 0 <= c < |lo|
      ensures lo'[c] <= hi'[c] <= |ix'|
      ensures forall k :: 0 <= k < |ix'| ==> (lo'[c] <= k < hi'[c] <==> ix'[k] == c)
    {
      OneSegment(ix, lo, hi, b, c);
    }
  }

  lemma OneSegment(ix: seq<nat>, lo: seq<nat>, hi: seq<nat>, b: nat, c: nat)
    requires Segmented(ix, lo, hi) && b < |lo| && c < |lo|
    ensures var p := Spot(ix, lo, hi, b); var ix', l, h := InsertAt(ix, p, b), LowAfter(ix, lo, hi, b)[c], HighAfter(ix, lo, hi, b)[c];
      l <= h <= |ix'| && forall k :: 0 <= k < |ix'| ==> (l <= k < h <==> ix'[k] == c)
  {
    var p := Spot(ix, lo, hi, b);
    var ix', l, h := InsertAt(ix, p, b), LowAfter(ix, lo, hi, b)[c], HighAfter(ix, lo, hi, b)[c];
    if c != b && lo[c] < hi[c] && lo[c] < p {
      // a segment in front of the spot ends there at the latest
      assert hi[c] <= p by {
        assert lo[b] < hi[b] ==> ix[lo[b]] == b;
      }
    }
    forall k | 0 <= k < |ix'|
      ensures l <= k < h <==> ix'[k] == c
    {
      if k < p {
        assert ix'[k] == ix[k];
      } else if k > p {
        assert ix'[k] == ix[k - 1];
      }
    }
  }

  /** The bounds after the node at position p has been unlinked. */
  ghost function LowWithout(lo: seq<nat>, hi: seq<nat>, p: nat): (r: seq<nat>)
    requires |lo| == |hi|
    ensures |r| == |lo|
  {
    seq(|lo|, c requires 0 <= c < |lo| => if lo[c] > p then lo[c] - 1 else lo[c])
  }

  ghost function HighWithout(lo: seq<nat>, hi: seq<nat>, p: nat): (r: seq<nat>)
    requires |lo| == |hi|
    ensures |r| == |lo|
  {
    seq(|lo|, c requires 0 <= c < |lo| => if hi[c] > p then hi[c] - 1 else hi[c])
  }

  lemma RemoveSegmented(ix: seq<nat>, lo: seq<nat>, hi: seq<nat>, p: nat)
    requires Segmented(ix, lo, hi) && p < |ix|
    ensures Segmented(RemoveAt<nat>(ix, p), LowWithout(lo, hi, p), HighWithout(lo, hi, p))
  {
    var ix', lo', hi' := RemoveAt(ix, p), LowWithout(lo, hi, p), HighWithout(lo, hi, p);
    forall c, k | 0 <= c < |lo| && 0 <= k < |ix'|
      ensures lo'[c] <= k < hi'[c] <==> ix'[k] == c
    {
      if k < p {
        assert ix'[k] == ix[k];
      } else {
        assert ix'[k] == ix[k + 1];
      }
    }
  }
}
