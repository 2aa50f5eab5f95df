/** The round-robin ring balancer: an ever-growing accept counter taken modulo the
    number of rings. */
module LoadBalance {
  import opened Base
  import opened Operator
  import Bits

  /** `roundRobinLB`; the `uintptr` counter is an unbounded natural. */
  datatype LB = LB(rings: seq<RingId>, accepted: nat, ringSize: nat)

  /** The two fields describing the ring slice agree. */
  ghost predicate Valid(b: LB) {
    b.ringSize == |b.rings|
  }

  /** `newLoadbalance(rings)`: the counter starts at zero. */
  function NewLoadBalance(rings: seq<RingId>): (b: LB)
    ensures Valid(b) && b.rings == rings && b.accepted == 0
  {
    LB(rings, 0, |rings|)
  }

  /** `pick()`: bump the counter first, then index by the new value modulo the size.
      An empty balancer divides by zero. */
  function Pick(b: LB): (r: (LB, Result<RingId>))
    ensures r.0 == b.(accepted := b.accepted + 1)
    ensures b.ringSize == 0 ==> r.1.Fault?
    ensures Valid(b) && |b.rings| > 0 ==> r.1 == Ok(b.rings[(b.accepted + 1) % |b.rings|])
    ensures !r.1.Err?
  {
    var b' := b.(accepted := b.accepted + 1);
    if b.ringSize == 0 then (b', Fault)
    else
      var index := b'.accepted % b.ringSize;
      if index < |b.rings| then (b', Ok(b.rings[index])) else (b', Fault)
  }

  /** `rebalance(rings)`: swaps the ring slice and keeps the counter. */
  function Rebalance(b: LB, rings: seq<RingId>): (b': LB)
    ensures Valid(b') && b'.rings == rings && b'.accepted == b.accepted
  {
    b.(rings := rings, ringSize := |rings|)
  }

  /** The results of `k` picks in a row. */
  function Picks(b: LB, k: nat): (r: (LB, seq<Result<RingId>>))
    ensures |r.1| == k
    decreases k
  {
    if k == 0 then (b, [])
    else
      var p := Pick(b);
      var rec := Picks(p.0, k - 1);
      (rec.0, [p.1] + rec.1)
  }

  /** One unfolding of `Picks`: the first pick, then the remaining `k - 1`. */
  lemma PicksStep(b: LB, k: nat, r: (LB, seq<Result<RingId>>), rec: (LB, seq<Result<RingId>>))
    requires k > 0 && r == Picks(b, k) && rec == Picks(Pick(b).0, k - 1)
    ensures r == (rec.0, [Pick(b).1] + rec.1)
  {
  }

  /** The `i`-th of `k` picks (counting from 0) returns `rings[(accepted + i + 1) mod n]`,
      and the counter ends `k` higher. */
  lemma {:induction false} PicksIndex(b: LB, k: nat)
    requires Valid(b) && |b.rings| > 0
    ensures Picks(b, k).0 == b.(accepted := b.accepted + k)
    ensures forall i :: 0 <= i < k ==>
      Picks(b, k).1[i] == Ok(b.rings[(b.accepted + i + 1) % |b.rings|])
    decreases k
  {
    if k > 0 {
      var b1 := Pick(b).0;
      var r := Picks(b, k);
      var rec := Picks(b1, k - 1);
      PicksIndex(b1, k - 1);
      PicksStep(b, k, r, rec);
      PicksShift(b, b1, k, r.1, rec.1);
    }
  }

  /** The results of a pick from `b` followed by those of the picks from the bumped
      balancer `b1` are the results of the picks from `b`. */
  lemma PicksShift(b: LB, b1: LB, k: nat, rs: seq<Result<RingId>>, rest: seq<Result<RingId>>)
    requires |b.rings| > 0 && b1 == b.(accepted := b.accepted + 1) && k > 0 && |rest| == k - 1
    requires rs == [Ok(b.rings[(b.accepted + 1) % |b.rings|])] + rest
    requires forall i :: 0 <= i < k - 1 ==> rest[i] == Ok(b1.rings[(b1.accepted + i + 1) % |b1.rings|])
    ensures forall i :: 0 <= i < k ==> rs[i] == Ok(b.rings[(b.accepted + i + 1) % |b.rings|])
  {
    forall i | 0 <= i < k
      ensures rs[i] == Ok(b.rings[(b.accepted + i + 1) % |b.rings|])
    {
      if i > 0 {
        assert b1.accepted + (i - 1) + 1 == b.accepted + i + 1;
        assert rs[i] == rest[i - 1];
      }
    }
  }

  /** From a fresh balancer the `k`-th pick (`k >= 1`) returns `rings[k mod n]`; the
      very first pick therefore returns `rings[1 mod n]`, not `rings[0]`. */
  lemma KthPick(rings: seq<RingId>, k: nat)
    requires |rings| > 0 && k >= 1
    ensures Picks(NewLoadBalance(rings), k).1[k - 1] == Ok(rings[k % |rings|])
  {
    PicksIndex(NewLoadBalance(rings), k);
  }

  /** The ring index used by the `i`-th pick of a window starting at counter `a`. */
  function PickIndex(a: nat, i: nat, n: nat): (j: nat)
    requires n > 0
    ensures j < n
  {
    (a + i + 1) % n
  }

  /** Within any window of `n` consecutive picks no ring index repeats. */
  lemma PickWindowDistinct(a: nat, i: nat, j: nat, n: nat)
    requires 0 <= i < j < n
    ensures PickIndex(a, i, n) != PickIndex(a, j, n)
  {
    var x := a + i + 1;
    var q := x / n;
    var r := x % n;
    var gap := j - i;
    if r + gap < n {
      Bits.DivModUnique(x + gap, n, q, r + gap);
    } else {
      Bits.DivModUnique(x + gap, n, q + 1, r + gap - n);
    }
  }

  /** Within any window of `n` consecutive picks every ring index occurs: the pick that
      lands on index `j` is returned. */
  lemma PickWindowCovers(a: nat, j: nat, n: nat) returns (i: nat)
    requires j < n
    ensures i < n && PickIndex(a, i, n) == j
  {
    var x := a + 1;
    var r := x % n;
    if j >= r {
      i := j - r;
      Bits.DivModUnique(x + i, n, x / n, j);
    } else {
      i := j + n - r;
      Bits.DivModUnique(x + i, n, x / n + 1, j);
    }
    assert x + i == a + i + 1;
  }
}
