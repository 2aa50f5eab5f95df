/** The operator free-list cache: a slot allocator whose free list is threaded through
    the operators' `next` links, and a pending list that `freeable` fills and `free`
    later splices onto the live list.  Both spin locks are one atomic step each. */
module OperatorCache {
  import opened Base
  import opened Operator

  /** `unsafe.Sizeof(FDOperator{})` on a 64-bit target: six 8-byte words (the fd and five
      funcs), a 16-byte interface, two int32 fields padded to 8 bytes each and a pointer. */
  const OperatorSize: nat := 88

  /** Operators added per growth: as many as fit in 4096 bytes, at least one. */
  function OpsPerBlock(opSize: nat): (k: nat)
    requires opSize > 0
    ensures k >= 1
    ensures k * opSize <= 4096 || k == 1
    ensures k == 1 || 4096 < (k + 1) * opSize
  {
    if 4096 / opSize == 0 then 1 else 4096 / opSize
  }

  /** `first == -1` is the nil head. */
  datatype Cache = Cache(ops: seq<FDOperator>, first: int, freelist: seq<int>)

  /** The cache's invariant: `cache[op.index]` is `op`, every link points into the cache
      or is nil, and every pending index names a slot. */
  ghost predicate Valid(c: Cache) {
    && -1 <= c.first < |c.ops|
    && (forall i :: 0 <= i < |c.ops| ==> c.ops[i].index == i && -1 <= c.ops[i].next < |c.ops|)
    && (forall j :: 0 <= j < |c.freelist| ==> 0 <= c.freelist[j] < |c.ops|)
  }

  /** `xs` is the list of slots reached by following `next` links from `p` to nil. */
  ghost predicate IsChain(ops: seq<FDOperator>, p: int, xs: seq<int>)
    decreases |xs|
  {
    if xs == [] then p == -1
    else 0 <= p < |ops| && xs[0] == p && IsChain(ops, ops[p].next, xs[1..])
  }

  /** `newOperatorCache()`: no operators, nil head, nothing pending. */
  function NewOperatorCache(): (c: Cache)
    ensures Valid(c) && IsChain(c.ops, c.first, []) && c.freelist == []
  {
    Cache([], -1, [])
  }

  /** One step of the growth loop: a new operator at the end whose `next` is the old head
      becomes the head. */
  function PushNew(c: Cache): (r: Cache)
    requires Valid(c)
    ensures Valid(r)
    ensures |r.ops| == |c.ops| + 1 && r.ops[..|c.ops|] == c.ops
    ensures r.first == |c.ops| && r.ops[|c.ops|] == NewOperator(|c.ops|, c.first)
    ensures r.freelist == c.freelist
  {
    Cache(c.ops + [NewOperator(|c.ops|, c.first)], |c.ops|, c.freelist)
  }

  /** The growth loop run `k` times (the `k`-th step on top of the first `k-1`). */
  function Grow(c: Cache, k: nat): (r: Cache)
    requires Valid(c)
    ensures Valid(r)
    ensures |r.ops| == |c.ops| + k && r.ops[..|c.ops|] == c.ops
    ensures r.freelist == c.freelist
    ensures k > 0 ==> r.first == |c.ops| + k - 1
    ensures k == 0 ==> r == c
    decreases k
  {
    if k == 0 then c else PushNew(Grow(c, k - 1))
  }

  /** Slots `hi-1, hi-2, ..., lo`, the order in which a growth links its new operators. */
  function Descending(lo: int, hi: int): (xs: seq<int>)
    requires lo <= hi
    ensures |xs| == hi - lo
    ensures forall j :: 0 <= j < |xs| ==> xs[j] == hi - 1 - j
    decreases hi - lo
  {
    if lo == hi then [] else [hi - 1] + Descending(lo, hi - 1)
  }

  /** Growing an empty free list links the new slots newest first, ending at nil. */
  lemma {:induction false} GrowChain(c: Cache, k: nat)
    requires Valid(c) && c.first == -1
    ensures IsChain(Grow(c, k).ops, Grow(c, k).first, Descending(|c.ops|, |c.ops| + k))
  {
    GrowChainFrom(c, k, []);
    assert Descending(|c.ops|, |c.ops| + k) + [] == Descending(|c.ops|, |c.ops| + k);
  }

  lemma GrowChainFrom(c: Cache, k: nat, xs: seq<int>)
    requires Valid(c) && IsChain(c.ops, c.first, xs)
    ensures IsChain(Grow(c, k).ops, Grow(c, k).first, Descending(|c.ops|, |c.ops| + k) + xs)
  {
    var r := Grow(c, k);
    ChainPrefixFrame(c.ops, r.ops, c.first, xs);
    GrowLinks(c, k);
    LinkedChain(r.ops, |c.ops|, c.first, k, xs);
  }

  /** After `k` growth steps the first new slot links to the old head and every later
      one to its predecessor. */
  lemma {:induction false} GrowLinks(c: Cache, k: nat)
    requires Valid(c)
    ensures forall i :: |c.ops| <= i < |c.ops| + k ==>
      Grow(c, k).ops[i].next == if i == |c.ops| then c.first else i - 1
    decreases k
  {
    if k > 0 {
      var n := |c.ops|;
      var g := Grow(c, k - 1);
      var r := Grow(c, k);
      GrowLinks(c, k - 1);
      assert r == PushNew(g);
      forall i | n <= i < n + k
        ensures r.ops[i].next == if i == n then c.first else i - 1
      {
        if i < n + k - 1 {
          assert r.ops[i] == r.ops[..n + k - 1][i];
        }
      }
    }
  }

  /** Slots `n .. n+m-1` each linking to the one below, the lowest to the head of the
      chain `xs`, form the chain `n+m-1, ..., n` followed by `xs`. */
  lemma {:induction false} LinkedChain(ops: seq<FDOperator>, n: int, p: int, m: nat, xs: seq<int>)
    requires IsChain(ops, p, xs) && 0 <= n && n + m <= |ops|
    requires forall i :: n <= i < n + m ==> ops[i].next == if i == n then p else i - 1
    ensures IsChain(ops, if m == 0 then p else n + m - 1, Descending(n, n + m) + xs)
    decreases m
  {
    if m > 0 {
      LinkedChain(ops, n, p, m - 1, xs);
      DescendingCons(n, n + m, xs);
    } else {
      assert Descending(n, n) + xs == xs;
    }
  }

  lemma DescendingCons(lo: int, hi: int, xs: seq<int>)
    requires lo < hi
    ensures Descending(lo, hi) + xs == [hi - 1] + (Descending(lo, hi - 1) + xs)
  {
    assert Descending(lo, hi) == [hi - 1] + Descending(lo, hi - 1);
  }

  /** The operator a growth step adds heads the old chain. */
  lemma PushNewChain(c: Cache, xs: seq<int>)
    requires Valid(c) && IsChain(c.ops, c.first, xs)
    ensures IsChain(PushNew(c).ops, PushNew(c).first, [|c.ops|] + xs)
  {
    var c1 := PushNew(c);
    ChainPrefixFrame(c.ops, c1.ops, c.first, xs);
    assert ([|c.ops|] + xs)[1..] == xs;
  }

  /** Appending operators does not disturb a chain among the old ones. */
  lemma {:induction false} ChainPrefixFrame(ops: seq<FDOperator>, ops': seq<FDOperator>, p: int, xs: seq<int>)
    requires IsChain(ops, p, xs)
    requires |ops| <= |ops'| && ops'[..|ops|] == ops
    ensures IsChain(ops', p, xs)
    decreases |xs|
  {
    if xs != [] {
      assert ops'[p] == ops[p];
      ChainPrefixFrame(ops, ops', ops[p].next, xs[1..]);
    }
  }

  /** Rewriting the link of a slot that is not on a chain does not disturb the chain. */
  lemma {:induction false} ChainUpdateFrame(ops: seq<FDOperator>, p: int, xs: seq<int>, i: int, v: int)
    requires IsChain(ops, p, xs)
    requires 0 <= i < |ops| && i !in xs
    ensures IsChain(ops[i := ops[i].(next := v)], p, xs)
    decreases |xs|
  {
    if xs != [] {
      assert xs[0] != i;
      assert forall y :: y in xs[1..] ==> y in xs;
      ChainUpdateFrame(ops, ops[p].next, xs[1..], i, v);
    }
  }

  /** `alloc()`: grows the list first when it is empty, then unlinks and returns the head
      slot.  The returned operator is `ops[slot]` of the new cache. */
  function Alloc(c: Cache): (r: (Cache, int))
    requires Valid(c)
    ensures Valid(r.0) && 0 <= r.1 < |r.0.ops| && |c.ops| <= |r.0.ops|
    ensures r.0.ops[..|c.ops|] == c.ops && r.0.freelist == c.freelist
    ensures c.first != -1 ==> r.0.ops == c.ops && r.1 == c.first && r.0.first == c.ops[c.first].next
    ensures c.first == -1 ==>
      && |r.0.ops| == |c.ops| + OpsPerBlock(OperatorSize)
      && r.1 == |r.0.ops| - 1
  {
    var c1 := if c.first == -1 then Grow(c, OpsPerBlock(OperatorSize)) else c;
    (c1.(first := c1.ops[c1.first].next), c1.first)
  }

  /** `freeable(op)`: queues the slot; the live list is untouched. */
  function Freeable(c: Cache, op: FDOperator): (r: Cache)
    requires Valid(c) && 0 <= op.index < |c.ops|
    ensures Valid(r)
    ensures r.ops == c.ops && r.first == c.first
    ensures r.freelist == c.freelist + [op.index]
  {
    c.(freelist := c.freelist + [op.index])
  }

  /** The splice loop of `free()`: each pending slot in turn links to the head and
      becomes the head. */
  function Splice(ops: seq<FDOperator>, first: int, pending: seq<int>): (r: (seq<FDOperator>, int))
    requires -1 <= first < |ops|
    requires forall i :: 0 <= i < |ops| ==> ops[i].index == i && -1 <= ops[i].next < |ops|
    requires forall j :: 0 <= j < |pending| ==> 0 <= pending[j] < |ops|
    ensures |r.0| == |ops| && -1 <= r.1 < |ops|
    ensures forall i :: 0 <= i < |r.0| ==> r.0[i].index == i && -1 <= r.0[i].next < |r.0|
    ensures pending != [] ==> r.1 == pending[|pending| - 1]
    ensures pending == [] ==> r == (ops, first)
    decreases |pending|
  {
    if pending == [] then (ops, first)
    else Splice(ops[pending[0] := ops[pending[0]].(next := first)], pending[0], pending[1..])
  }

  /** `free()`: a no-op when nothing is pending; otherwise splices every pending slot onto
      the live list and empties the pending list. */
  function Free(c: Cache): (r: Cache)
    requires Valid(c)
    ensures Valid(r) && r.freelist == []
    ensures c.freelist == [] ==> r == c
    ensures c.freelist != [] ==> r.first == c.freelist[|c.freelist| - 1]
    ensures |r.ops| == |c.ops|
  {
    if c.freelist == [] then c
    else
      var (ops', first') := Splice(c.ops, c.first, c.freelist);
      Cache(ops', first', [])
  }

  /** Pending slots that are distinct and off the live list are pushed in order: the free
      list becomes the pending list reversed, followed by the old free list. */
  lemma {:induction false} SpliceChain(ops: seq<FDOperator>, first: int, pending: seq<int>, xs: seq<int>)
    requires -1 <= first < |ops|
    requires forall i :: 0 <= i < |ops| ==> ops[i].index == i && -1 <= ops[i].next < |ops|
    requires forall j :: 0 <= j < |pending| ==> 0 <= pending[j] < |ops|
    requires IsChain(ops, first, xs)
    requires forall j, k :: 0 <= j < k < |pending| ==> pending[j] != pending[k]
    requires forall j :: 0 <= j < |pending| ==> pending[j] !in xs
    ensures IsChain(Splice(ops, first, pending).0, Splice(ops, first, pending).1, Reverse(pending) + xs)
    decreases |pending|
  {
    if pending != [] {
      var i := pending[0];
      var ops1 := ops[i := ops[i].(next := first)];
      ChainUpdateFrame(ops, first, xs, i, first);
      assert IsChain(ops1, i, [i] + xs) by {
        assert ([i] + xs)[1..] == xs;
      }
      forall j | 0 <= j < |pending[1..]| ensures pending[1..][j] !in [i] + xs {
        assert pending[1..][j] == pending[j + 1];
      }
      SpliceChain(ops1, i, pending[1..], [i] + xs);
      var r := Splice(ops, first, pending);
      assert r == Splice(ops1, i, pending[1..]);
      assert Reverse(pending) == Reverse(pending[1..]) + [i];
      assert Reverse(pending[1..]) + ([i] + xs) == Reverse(pending) + xs;
      assert IsChain(r.0, r.1, Reverse(pending) + xs);
    } else {
      assert Reverse(pending) + xs == xs;
    }
  }

  /** `free()` on a cache whose pending slots are distinct and not already free leaves
      exactly the reversed pending list in front of the old free list. */
  lemma FreeChain(c: Cache, xs: seq<int>)
    requires Valid(c) && IsChain(c.ops, c.first, xs)
    requires forall j, k :: 0 <= j < k < |c.freelist| ==> c.freelist[j] != c.freelist[k]
    requires forall j :: 0 <= j < |c.freelist| ==> c.freelist[j] !in xs
    ensures IsChain(Free(c).ops, Free(c).first, Reverse(c.freelist) + xs)
  {
    if c.freelist != [] {
      SpliceChain(c.ops, c.first, c.freelist, xs);
      var r := Splice(c.ops, c.first, c.freelist);
      assert Free(c) == Cache(r.0, r.1, []);
      assert IsChain(r.0, r.1, Reverse(c.freelist) + xs);
    } else {
      assert Reverse(c.freelist) + xs == xs;
    }
  }

  /** `alloc` hands out the head of the free list and leaves the rest linked. */
  lemma AllocChain(c: Cache, xs: seq<int>)
    requires Valid(c) && IsChain(c.ops, c.first, xs) && xs != []
    ensures Alloc(c).1 == xs[0]
    ensures IsChain(Alloc(c).0.ops, Alloc(c).0.first, xs[1..])
  {
  }

  /** `alloc` on an empty free list adds one block of operators, indexed consecutively
      from the old length, returns the newest and leaves the others linked newest first. */
  lemma AllocGrowChain(c: Cache)
    requires Valid(c) && c.first == -1
    ensures var k := OpsPerBlock(OperatorSize);
            var (c', slot) := Alloc(c);
            && slot == |c.ops| + k - 1
            && (forall i :: |c.ops| <= i < |c'.ops| ==> c'.ops[i].index == i)
            && IsChain(c'.ops, c'.first, Descending(|c.ops|, |c.ops| + k - 1))
  {
    var k := OpsPerBlock(OperatorSize);
    var g := Grow(c, k);
    GrowChain(c, k);
    var d := Descending(|c.ops|, |c.ops| + k);
    assert d[1..] == Descending(|c.ops|, |c.ops| + k - 1);
  }

  /** A queued slot is not handed out before `free()` runs. */
  lemma FreeableDefersReuse(c: Cache, xs: seq<int>, op: FDOperator)
    requires Valid(c) && IsChain(c.ops, c.first, xs)
    requires 0 <= op.index < |c.ops| && op.index !in xs
    ensures Alloc(Freeable(c, op)).1 != op.index
  {
    if xs != [] {
      AllocChain(Freeable(c, op), xs);
    }
  }

  /** The slot freed last is the next one allocated, whatever the pending list holds. */
  lemma FreeThenAllocReturnsLast(c: Cache)
    requires Valid(c) && c.freelist != []
    ensures Alloc(Free(c)).1 == c.freelist[|c.freelist| - 1]
  {
  }
}
