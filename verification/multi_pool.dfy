/** A pool of goroutine pools: tasks go round-robin to equally sized sub-pools, the
    counters are sums over them, and release and reboot act on all of them. */
module MultiPool {
  import opened Base
  import PoolOptions
  import WorkerPool

  datatype MultiGoPool = MultiGoPool(pools: seq<WorkerPool.GoPool>, index: nat, state: WorkerPool.State)

  /** The construction loop for `n` sub-pools; it stops at the first error. */
  function BuildPools(n: nat, sizePerPool: int, opts: seq<PoolOptions.Opt>): (r: Result<seq<WorkerPool.GoPool>>)
  {
    if n == 0 then Ok([])
    else
      var first := BuildPools(n - 1, sizePerPool, opts);
      if !first.Ok? then first
      else
        var p := WorkerPool.NewGoPool(sizePerPool, opts);
        if p.Ok? then Ok(first.value + [p.value]) else Err(p.error)
  }

  /** Building succeeds exactly when one sub-pool can be built, and then every sub-pool
      is that same fresh pool. */
  lemma {:induction false} BuildPoolsSpec(n: nat, sizePerPool: int, opts: seq<PoolOptions.Opt>)
    ensures var r := BuildPools(n, sizePerPool, opts);
            var one := WorkerPool.NewGoPool(sizePerPool, opts);
            && !r.Fault?
            && (r.Ok? <==> n == 0 || one.Ok?)
            && (r.Err? ==> r.error == one.error)
            && (r.Ok? ==> |r.value| == n && forall i :: 0 <= i < n ==> r.value[i] == one.value)
    decreases n
  {
    if n > 0 {
      BuildPoolsSpec(n - 1, sizePerPool, opts);
    }
  }

  /** `newMultiGoPool(size, sizePerPool, options...)`; a negative size panics in `make`. */
  function NewMultiGoPool(size: int, sizePerPool: int, opts: seq<PoolOptions.Opt>): (r: Result<MultiGoPool>)
    ensures r.Fault? <==> size < 0
    ensures r.Ok? ==> r.value.index == 0 && r.value.state == WorkerPool.Opened && |r.value.pools| == size
  {
    if size < 0 then Fault
    else
      BuildPoolsSpec(size, sizePerPool, opts);
      var pools := BuildPools(size, sizePerPool, opts);
      if pools.Ok? then Ok(MultiGoPool(pools.value, 0, WorkerPool.Opened)) else Err(pools.error)
  }

  /** Construction fails with the sub-pool's error exactly when one sub-pool fails. */
  lemma NewMultiGoPoolCases(size: int, sizePerPool: int, opts: seq<PoolOptions.Opt>)
    requires size > 0
    ensures var one := WorkerPool.NewGoPool(sizePerPool, opts);
            var r := NewMultiGoPool(size, sizePerPool, opts);
            && (one.Err? ==> r == Err(one.error))
            && (one.Ok? ==> r.Ok? && forall i :: 0 <= i < size ==> r.value.pools[i] == one.value)
  {
    BuildPoolsSpec(size, sizePerPool, opts);
  }

  /** The loops of `Capacity`, `Waiting`, `Running` and `Free`: a sum over the pools. */
  function Total(pools: seq<WorkerPool.GoPool>, f: WorkerPool.GoPool -> int): (t: int)
    decreases |pools|
  {
    if pools == [] then 0 else Total(pools[..|pools| - 1], f) + f(pools[|pools| - 1])
  }

  function CapacityOf(p: WorkerPool.GoPool): int { p.capacity }
  function RunningOf(p: WorkerPool.GoPool): int { p.running }
  function WaitingOf(p: WorkerPool.GoPool): int { p.waiting }

  function Capacity(mp: MultiGoPool): (c: int)
  {
    Total(mp.pools, CapacityOf)
  }

  function Running(mp: MultiGoPool): (n: int)
  {
    Total(mp.pools, RunningOf)
  }

  function Waiting(mp: MultiGoPool): (n: int)
  {
    Total(mp.pools, WaitingOf)
  }

  function Free(mp: MultiGoPool): (n: int)
  {
    Total(mp.pools, WorkerPool.Free)
  }

  lemma {:induction false} TotalFreeBounded(pools: seq<WorkerPool.GoPool>)
    requires forall i :: 0 <= i < |pools| ==> pools[i].capacity >= 0
    ensures Total(pools, WorkerPool.Free) == Total(pools, CapacityOf) - Total(pools, RunningOf)
    decreases |pools|
  {
    if pools != [] {
      TotalFreeBounded(pools[..|pools| - 1]);
    }
  }

  /** With bounded sub-pools the free count is capacity minus running, as for one pool. */
  lemma FreeIsCapacityMinusRunning(mp: MultiGoPool)
    requires forall i :: 0 <= i < |mp.pools| ==> mp.pools[i].capacity >= 0
    ensures Free(mp) == Capacity(mp) - Running(mp)
  {
    TotalFreeBounded(mp.pools);
  }

  lemma {:induction false} TotalUniform(pools: seq<WorkerPool.GoPool>, f: WorkerPool.GoPool -> int, p: WorkerPool.GoPool)
    requires forall i :: 0 <= i < |pools| ==> pools[i] == p
    ensures Total(pools, f) == |pools| * f(p)
    decreases |pools|
  {
    if pools != [] {
      TotalUniform(pools[..|pools| - 1], f, p);
    }
  }

  /** A fresh multipool of `size` bounded sub-pools has `size * sizePerPool` capacity,
      all of it free. */
  lemma FreshCounters(size: int, sizePerPool: int, opts: seq<PoolOptions.Opt>)
    requires 0 < sizePerPool < 0x8000_0000 && size >= 1
    requires NewMultiGoPool(size, sizePerPool, opts).Ok?
    ensures var mp := NewMultiGoPool(size, sizePerPool, opts).value;
            && Capacity(mp) == size * sizePerPool
            && Running(mp) == 0 && Waiting(mp) == 0
            && Free(mp) == size * sizePerPool
  {
    var mp := NewMultiGoPool(size, sizePerPool, opts).value;
    BuildPoolsSpec(size, sizePerPool, opts);
    var one := WorkerPool.NewGoPool(sizePerPool, opts).value;
    TotalUniform(mp.pools, CapacityOf, one);
    TotalUniform(mp.pools, RunningOf, one);
    TotalUniform(mp.pools, WaitingOf, one);
    TotalUniform(mp.pools, WorkerPool.Free, one);
  }

  /** `next()`: the index before the increment, modulo the number of pools; with no
      pools the modulus is a division by zero. */
  function Next(mp: MultiGoPool): (r: Result<(MultiGoPool, nat)>)
    ensures r.Fault? <==> |mp.pools| == 0
    ensures !r.Err?
    ensures r.Ok? ==> r.value.0 == mp.(index := mp.index + 1) && r.value.1 < |mp.pools|
  {
    if |mp.pools| == 0 then Fault else Ok((mp.(index := mp.index + 1), mp.index % |mp.pools|))
  }

  /** `k` calls of `next()`, and the index the last returned. */
  function Nexts(mp: MultiGoPool, k: nat): (r: (MultiGoPool, int))
    requires |mp.pools| > 0
    decreases k
  {
    if k == 0 then (mp, -1)
    else if k == 1 then Next(mp).value
    else Nexts(Next(mp).value.0, k - 1)
  }

  lemma {:induction false} NextsIndex(mp: MultiGoPool, k: nat)
    requires |mp.pools| > 0 && k >= 1
    ensures Nexts(mp, k).0 == mp.(index := mp.index + k)
    ensures Nexts(mp, k).1 == (mp.index + k - 1) % |mp.pools|
    decreases k
  {
    if k > 1 {
      NextsIndex(Next(mp).value.0, k - 1);
    }
  }

  /** From a fresh or rebooted index, the `k`-th call returns `(k - 1) mod n`. */
  lemma KthNext(mp: MultiGoPool, k: nat)
    requires |mp.pools| > 0 && mp.index == 0 && k >= 1
    ensures Nexts(mp, k).1 == (k - 1) % |mp.pools|
  {
    NextsIndex(mp, k);
  }

  /** `Submit(task)`: a closed multipool refuses; otherwise the task goes to the pool
      `next()` picks. */
  function Submit(mp: MultiGoPool): (r: Result<WorkerPool.Call<MultiGoPool, (MultiGoPool, WorkerPool.Retrieval)>>)
    ensures mp.state == WorkerPool.Closed ==> r == Ok(WorkerPool.Returns((mp, WorkerPool.Failed(WorkerPool.ErrSubmitClosed))))
    ensures mp.state == WorkerPool.Opened ==> (r.Fault? <==> |mp.pools| == 0)
    ensures !r.Err?
    ensures mp.state == WorkerPool.Opened && r.Ok? && r.value.Returns? ==>
      var i := mp.index % |mp.pools|;
      && |r.value.value.0.pools| == |mp.pools|
      && WorkerPool.Submit(mp.pools[i]) == WorkerPool.Returns((r.value.value.0.pools[i], r.value.value.1))
      && r.value.value.0 == mp.(index := mp.index + 1, pools := mp.pools[i := r.value.value.0.pools[i]])
  {
    if mp.state == WorkerPool.Closed then Ok(WorkerPool.Returns((mp, WorkerPool.Failed(WorkerPool.ErrSubmitClosed))))
    else if |mp.pools| == 0 then Fault
    else
      var (mp', i) := Next(mp).value;
      match WorkerPool.Submit(mp.pools[i])
      case Blocks(p) => Ok(WorkerPool.Blocks(mp'.(pools := mp.pools[i := p])))
      case Returns((p, d)) => Ok(WorkerPool.Returns((mp'.(pools := mp.pools[i := p]), d)))
  }

  /** Decimal digits of a natural, as `%d` prints it. */
  function Decimal(n: nat): (s: string)
    ensures |s| >= 1
    decreases n
  {
    var digit := ['0' + (n % 10) as char];
    if n < 10 then digit else Decimal(n / 10) + digit
  }

  /** The release loop from sub-pool `i`: releases each, collecting one line per error
      with a separator after every line but the last pool's. */
  function ReleaseFrom(pools: seq<WorkerPool.GoPool>, i: nat, msg: string): (r: WorkerPool.Call<seq<WorkerPool.GoPool>, (seq<WorkerPool.GoPool>, string)>)
    requires i <= |pools|
    ensures r.Blocks? ==> |r.at| == |pools|
    decreases |pools| - i
  {
    if i == |pools| then WorkerPool.Returns((pools, msg))
    else
      match WorkerPool.Release(pools[i])
      case Blocks(p) => WorkerPool.Blocks(pools[i := p])
      case Returns((p, err)) =>
        var line := if err.None? then ""
          else "pool " + Decimal(i) + ": " + err.value.msg + "\n" + (if i < |pools| - 1 then " | " else "");
        ReleaseFrom(pools[i := p], i + 1, msg + line)
  }

  /** Pools from `i` on that were already closed. */
  predicate AllOpenFrom(pools: seq<WorkerPool.GoPool>, i: nat)
    requires i <= |pools|
  {
    forall j :: i <= j < |pools| ==> pools[j].state == WorkerPool.Opened
  }

  lemma {:induction false} ReleaseFromSpec(pools: seq<WorkerPool.GoPool>, i: nat, msg: string)
    requires i <= |pools|
    requires forall j :: i <= j < |pools| ==> !pools[j].locked
    ensures var r := ReleaseFrom(pools, i, msg);
            && r.Returns?
            && |r.value.0| == |pools|
            && r.value.0[..i] == pools[..i]
            && (forall j :: i <= j < |pools| ==> r.value.0[j].state == WorkerPool.Closed)
            && |r.value.1| >= |msg|
            && (r.value.1 == msg <==> AllOpenFrom(pools, i))
    decreases |pools| - i
  {
    if i < |pools| {
      var (p, err) := WorkerPool.Release(pools[i]).value;
      var line := if err.None? then ""
        else "pool " + Decimal(i) + ": " + err.value.msg + "\n" + (if i < |pools| - 1 then " | " else "");
      var pools' := pools[i := p];
      ReleaseFromSpec(pools', i + 1, msg + line);
      assert pools'[..i] == pools[..i];
      assert forall j :: i < j < |pools| ==> pools'[j] == pools[j];
      assert AllOpenFrom(pools, i) <==> pools[i].state == WorkerPool.Opened && AllOpenFrom(pools', i + 1);
      if err.Some? {
        assert |msg + line| > |msg|;
      }
    }
  }

  /** `Release()`: only an open multipool is released, by releasing every sub-pool. */
  function Release(mp: MultiGoPool): (r: WorkerPool.Call<MultiGoPool, (MultiGoPool, Option<Error>)>)
    ensures mp.state == WorkerPool.Closed ==> r == WorkerPool.Returns((mp, Some(WorkerPool.ErrReleaseClosed)))
    ensures r.Blocks? ==> r.at.state == WorkerPool.Closed && |r.at.pools| == |mp.pools|
  {
    if mp.state != WorkerPool.Opened then WorkerPool.Returns((mp, Some(WorkerPool.ErrReleaseClosed)))
    else
      match ReleaseFrom(mp.pools, 0, "")
      case Blocks(pools) => WorkerPool.Blocks(mp.(pools := pools, state := WorkerPool.Closed))
      case Returns((pools, msg)) =>
        WorkerPool.Returns((mp.(pools := pools, state := WorkerPool.Closed), if msg == "" then None else Some(Error(msg))))
  }

  /** Releasing an open multipool closes every sub-pool, and returns nil exactly when
      every sub-pool was open to be released. */
  lemma ReleaseAll(mp: MultiGoPool)
    requires mp.state == WorkerPool.Opened
    requires forall j :: 0 <= j < |mp.pools| ==> !mp.pools[j].locked
    ensures var r := Release(mp);
            && r.Returns?
            && r.value.0.state == WorkerPool.Closed
            && |r.value.0.pools| == |mp.pools|
            && (forall j :: 0 <= j < |mp.pools| ==> r.value.0.pools[j].state == WorkerPool.Closed)
            && (r.value.1 == None <==> forall j :: 0 <= j < |mp.pools| ==> mp.pools[j].state == WorkerPool.Opened)
  {
    ReleaseFromSpec(mp.pools, 0, "");
  }

  /** `Reboot()`: a closed multipool restarts its round robin and reboots every
      sub-pool; an open one is left alone. */
  function Reboot(mp: MultiGoPool): (mp': MultiGoPool)
    ensures mp.state == WorkerPool.Opened ==> mp' == mp
    ensures mp.state == WorkerPool.Closed ==>
      && mp'.state == WorkerPool.Opened && mp'.index == 0
      && |mp'.pools| == |mp.pools|
      && forall j :: 0 <= j < |mp.pools| ==> mp'.pools[j] == WorkerPool.Reboot(mp.pools[j])
  {
    if mp.state == WorkerPool.Closed then
      MultiGoPool(seq(|mp.pools|, j requires 0 <= j < |mp.pools| => WorkerPool.Reboot(mp.pools[j])), 0, WorkerPool.Opened)
    else mp
  }

  /** Release then reboot: every sub-pool is open again and the next task goes to the
      first pool. */
  lemma ReleaseRebootRestarts(mp: MultiGoPool)
    requires mp.state == WorkerPool.Opened && |mp.pools| > 0
    requires forall j :: 0 <= j < |mp.pools| ==> !mp.pools[j].locked
    ensures Release(mp).Returns?
    ensures var mp' := Reboot(Release(mp).value.0);
            && (forall j :: 0 <= j < |mp'.pools| ==> mp'.pools[j].state == WorkerPool.Opened)
            && Next(mp').Ok? && Next(mp').value.1 == 0
  {
    ReleaseAll(mp);
  }
}
