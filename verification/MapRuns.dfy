/** Whole runs of an ordered map, against a reading of the run that keeps no map at all. */
module MapRuns {
  import opened Bytes
  import opened OrderedMap

  datatype Op<V> = SetOp(key: Key, value: V) | DelOp(key: Key) | ClearOp

  function Apply<V>(m: seq<Entry<V>>, op: Op<V>): seq<Entry<V>> {
    match op
    case SetOp(k, v) => Set(m, k, v)
    case DelOp(k) => Del(m, k)
    case ClearOp => []
  }

  function Replay<V>(ops: seq<Op<V>>): seq<Entry<V>> {
    if ops == [] then [] else Apply(Replay(ops[..|ops| - 1]), ops[|ops| - 1])
  }

  /** The value last set for k and not deleted or cleared since. */
  function LastSet<V>(ops: seq<Op<V>>, k: Key): Option<V> {
    if ops == [] then None
    else
      match ops[|ops| - 1]
      case ClearOp => None
      case SetOp(k', v) => if k' == k then Some(v) else LastSet(ops[..|ops| - 1], k)
      case DelOp(k') => if k' == k then None else LastSet(ops[..|ops| - 1], k)
  }

  /** The step at which k was first set since it was last absent. */
  function Born<V>(ops: seq<Op<V>>, k: Key): nat {
    if ops == [] then 0
    else
      var before := ops[..|ops| - 1];
      var op := ops[|ops| - 1];
      if op.SetOp? && op.key == k && LastSet(before, k).None? then |before| else Born(before, k)
  }

  lemma {:induction false} ReplayDistinct<V>(ops: seq<Op<V>>)
    ensures Distinct(Replay(ops))
  {
    if ops != [] {
      var before := Replay(ops[..|ops| - 1]);
      ReplayDistinct(ops[..|ops| - 1]);
      match ops[|ops| - 1] {
        case SetOp(k, v) => SetKeepsDistinct(before, k, v);
        case DelOp(k) => DelLaw(before, k);
        case ClearOp =>
      }
    }
  }

  /** After any run, a lookup finds exactly the last value set. */
  lemma {:induction false} LookupFindsLastSet<V>(ops: seq<Op<V>>, k: Key)
    ensures Get(Replay(ops), k) == LastSet(ops, k)
    ensures Has(Replay(ops), k) <==> LastSet(ops, k).Some?
  {
    GetAbsent(Replay(ops), k);
    if ops != [] {
      var before := Replay(ops[..|ops| - 1]);
      LookupFindsLastSet(ops[..|ops| - 1], k);
      match ops[|ops| - 1] {
        case SetOp(k', v) => GetSet(before, k', v, k);
        case DelOp(k') =>
          ReplayDistinct(ops[..|ops| - 1]);
          DelLaw(before, k');
          GetAbsent(Del(before, k'), k');
        case ClearOp =>
      }
    }
  }

  ghost predicate Ordered<V>(m: seq<Entry<V>>, ops: seq<Op<V>>) {
    && (forall i :: 0 <= i < |m| ==> Born(ops, m[i].key) < |ops|)
    && forall i, j :: 0 <= i < j < |m| ==> Born(ops, m[i].key) < Born(ops, m[j].key)
  }

  /** After any run, iteration lists the keys in the order they were first set. */
  lemma {:induction false} IterationIsInsertionOrder<V>(ops: seq<Op<V>>)
    ensures Ordered(Replay(ops), ops)
  {
    if ops != [] {
      var front := ops[..|ops| - 1];
      var op := ops[|ops| - 1];
      IterationIsInsertionOrder(front);
      ReplayDistinct(front);
      match op {
        case SetOp(k, v) => StepSet(front, op);
        case DelOp(k) => StepDel(front, op);
        case ClearOp =>
      }
      assert ops == front + [op];
    }
  }

  lemma BornStep<V>(front: seq<Op<V>>, op: Op<V>, k: Key)
    ensures Born(front + [op], k) == if op.SetOp? && op.key == k && LastSet(front, k).None? then |front|
      else Born(front, k)
  {
    assert (front + [op])[..|front|] == front;
  }

  lemma StepSet<V>(front: seq<Op<V>>, op: Op<V>)
    requires op.SetOp? && Ordered(Replay(front), front) && Distinct(Replay(front))
    ensures Ordered(Set(Replay(front), op.key, op.value), front + [op])
  {
    hide Replay, Set, Born, LastSet, Has;
    var m := Replay(front);
    LookupFindsLastSet(front, op.key);
    forall k ensures Born(front + [op], k) == if op.SetOp? && op.key == k && LastSet(front, k).None? then |front| else Born(front, k) {
      BornStep(front, op, k);
    }
    if Has(m, op.key) {
      var i := Index(m, op.key);
      SetAt(m, i, op.value);
    } else {
      Missing(m, op.key);
      SetAbsent(m, op.key, op.value);
    }
  }

  lemma StepDel<V>(front: seq<Op<V>>, op: Op<V>)
    requires op.DelOp? && Ordered(Replay(front), front) && Distinct(Replay(front))
    ensures Ordered(Del(Replay(front), op.key), front + [op])
  {
    hide Replay, Del, Born, LastSet, Has;
    var m := Replay(front);
    forall k ensures Born(front + [op], k) == Born(front, k) {
      BornStep(front, op, k);
    }
    if Has(m, op.key) {
      var i := Index(m, op.key);
      DelAt(m, i);
      var cut := m[..i] + m[i + 1..];
      assert forall j :: 0 <= j < |cut| ==> cut[j] == m[if j < i then j else j + 1];
    } else {
      DelAbsent(m, op.key);
    }
  }

  function Index<V>(m: seq<Entry<V>>, k: Key): (i: nat)
    requires Has(m, k)
    ensures i < |m| && m[i].key == k
  {
    if m[0].key == k then 0 else
      assert forall j :: 0 < j < |m| ==> m[j] == m[1..][j - 1];
      1 + Index(m[1..], k)
  }

  lemma Missing<V>(m: seq<Entry<V>>, k: Key)
    requires !Has(m, k)
    ensures forall i :: 0 <= i < |m| ==> m[i].key != k
  {
  }
}
