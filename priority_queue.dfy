/** std::priority_queue<std::pair<int, int>, ..., std::greater<>> as the path
    query and Prim use it: a bag of (key, vertex) pairs whose top is the
    lexicographically smallest pair. Pushing appends; popping removes one
    occurrence of the top. The heap layout itself is not modelled. */
module PriorityQueue {

  type Entry = (int, int)

  predicate PairLe(a: Entry, b: Entry) {
    a.0 < b.0 || (a.0 == b.0 && a.1 <= b.1)
  }

  /** Position of a smallest pair: the top of the queue. */
  function MinIndex(q: seq<Entry>): (i: nat)
    requires q != []
    ensures i < |q|
    ensures forall j :: 0 <= j < |q| ==> PairLe(q[i], q[j])
  {
    if |q| == 1 then 0
    else
      var k := MinIndex(q[1..]);
      if PairLe(q[0], q[k + 1]) then 0 else k + 1
  }

  /** The queue after pop(): one occurrence of the top is gone, nothing else changes. */
  function Pop(q: seq<Entry>): (r: seq<Entry>)
    requires q != []
    ensures |r| == |q| - 1
    ensures multiset(r) + multiset{q[MinIndex(q)]} == multiset(q)
    ensures forall x :: x in r ==> x in q
    ensures forall x :: Holds(q, x) && x != q[MinIndex(q)].1 ==> Holds(r, x)
  {
    var i := MinIndex(q);
    RemoveCounts(q, i);
    RemoveHolds(q, i);
    q[..i] + q[i + 1..]
  }

  /** Cutting out position i removes one occurrence of q[i] and nothing else. */
  lemma RemoveCounts(q: seq<Entry>, i: int)
    requires 0 <= i < |q|
    ensures multiset(q[..i] + q[i + 1..]) + multiset{q[i]} == multiset(q)
    ensures forall x :: x in q[..i] + q[i + 1..] ==> x in q
  {
    assert q == q[..i] + [q[i]] + q[i + 1..];
  }

  /** Cutting out position i keeps every vertex other than q[i]'s queued. */
  lemma RemoveHolds(q: seq<Entry>, i: int)
    requires 0 <= i < |q|
    ensures forall x :: Holds(q, x) && x != q[i].1 ==> Holds(q[..i] + q[i + 1..], x)
  {
    var r := q[..i] + q[i + 1..];
    forall x | Holds(q, x) && x != q[i].1 ensures Holds(r, x) {
      var k :| 0 <= k < |q| && q[k].1 == x;
      if k < i {
        assert r[k] == q[k];
      } else {
        assert r[k - 1] == q[k];
      }
    }
  }

  /** Some pair in the queue carries vertex x. */
  predicate Holds(q: seq<Entry>, x: int) {
    exists k :: 0 <= k < |q| && q[k].1 == x
  }
}
