/** The goroutine pool's admission logic: construction, the free-slot count, the
    OPENED/CLOSED state machine, and the decision `retrieveWorker` makes for each
    submitted task. Worker goroutines, timers and the condition variable become events:
    a submitter that has to wait is parked, and a later wake-up resumes it. */
module WorkerPool {
  import opened Base
  import opened PoolOptions

  /** `DefaultPoolSize`, `math.MaxInt32`. */
  const DefaultPoolSize: int := 0x7FFF_FFFF
  /** `DefaultCleanIntervalTime`, one second in nanoseconds. */
  const DefaultCleanIntervalTime: int := 1_000_000_000

  const ErrInvalidExpiry := Error("invalid expiry for pool")
  /** The message `Submit` and `retrieveWorker` use (with its typo). */
  const ErrSubmitClosed := Error("this pool hash been closed")
  const ErrReleaseClosed := Error("this pool has been closed")
  const ErrTooManyBlocked := Error("too many groutines blocked on submit or Nonblocking is set")

  datatype State = Opened | Closed

  /** A pool. `idle` counts the workers in the idle stack; `locked` is the pool's lock,
      which every complete operation releases before it returns. */
  datatype GoPool = GoPool(
    capacity: int,
    running: int,
    waiting: int,
    idle: nat,
    state: State,
    options: Options,
    locked: bool)

  /** A call that returns, or one that blocks forever on a lock nobody will release,
      leaving the shared state `at` as it stood when the caller got stuck. */
  datatype Call<S, T> = Returns(value: T) | Blocks(at: S)

  /** What `retrieveWorker` did for a submitter: took an idle worker, started a new one,
      parked the submitter on the condition variable, or failed. */
  datatype Retrieval = Reused | Spawned | Parked | Failed(err: Error)

  /** Go's `int32(x)` conversion: two's-complement truncation. */
  function ToInt32(x: int): (r: int)
    ensures -0x8000_0000 <= r < 0x8000_0000
    ensures -0x8000_0000 <= x < 0x8000_0000 ==> r == x
    ensures (r - x) % 0x1_0000_0000 == 0
  {
    var u := x % 0x1_0000_0000;
    if u < 0x8000_0000 then u else u - 0x1_0000_0000
  }

  /** The state every complete operation leaves behind: the lock free, counters
      non-negative, and no more running workers than a bounded capacity allows. */
  ghost predicate Valid(p: GoPool) {
    && !p.locked
    && p.running >= 0 && p.waiting >= 0
    && (p.capacity < 0 || p.running <= p.capacity)
  }

  /** `newGoPool(size, options...)`: a non-positive size means unbounded (-1); with purging
      enabled a negative expiry is refused and a zero one defaults to a second. The
      capacity is the size truncated to 32 bits. */
  function NewGoPool(size: int, opts: seq<Opt>): (r: Result<GoPool>)
    ensures !r.Fault?
    ensures var o := LoadOptions(opts);
      r.Err? <==> !o.disablePurge && o.expiryDuration < 0
    ensures r.Err? ==> r.error == ErrInvalidExpiry
    ensures r.Ok? ==> Valid(r.value) && r.value.state == Opened && r.value.idle == 0
    ensures r.Ok? ==> r.value.capacity == (if size <= 0 then -1 else ToInt32(size))
    ensures r.Ok? && 0 < size < 0x8000_0000 ==> r.value.capacity == size
    ensures r.Ok? ==> r.value.running == 0 && r.value.waiting == 0
    ensures r.Ok? ==> var o := LoadOptions(opts);
      && r.value.options == o.(expiryDuration := r.value.options.expiryDuration)
      && r.value.options.expiryDuration ==
           (if !o.disablePurge && o.expiryDuration == 0 then DefaultCleanIntervalTime else o.expiryDuration)
  {
    var size := if size <= 0 then -1 else size;
    var o := LoadOptions(opts);
    if !o.disablePurge && o.expiryDuration < 0 then Err(ErrInvalidExpiry)
    else
      var o := if !o.disablePurge && o.expiryDuration == 0 then o.(expiryDuration := DefaultCleanIntervalTime) else o;
      Ok(GoPool(ToInt32(size), 0, 0, 0, Opened, o, false))
  }

  /** A pool of `2^32` workers truncates to capacity 0 and never starts a worker. */
  lemma HugeSizeTruncates()
    ensures NewGoPool(0x1_0000_0000, []).Ok?
    ensures NewGoPool(0x1_0000_0000, []).value.capacity == 0
    ensures NewGoPool(0x8000_0000, []).value.capacity == -0x8000_0000
  {
  }

  /** `Free()`: -1 for an unbounded pool, else the slots left. */
  function Free(p: GoPool): (n: int)
    ensures p.capacity < 0 ==> n == -1
    ensures p.capacity >= 0 ==> n + p.running == p.capacity
  {
    if p.capacity < 0 then -1 else p.capacity - p.running
  }

  /** In a valid bounded pool the free count never goes negative. */
  lemma FreeNonNegative(p: GoPool)
    requires Valid(p) && p.capacity >= 0
    ensures 0 <= Free(p) <= p.capacity
  {
  }

  function IsClosed(p: GoPool): (b: bool)
    ensures b <==> p.state == Closed
  {
    p.state == Closed
  }

  /** The body of `retrieveWorker`'s loop, entered holding the lock on an open pool: an
      idle worker first, else a new worker while capacity allows, else failure when
      blocking is not allowed or too many are waiting, else park (which releases the
      lock inside `cond.Wait`). Every outcome releases the lock. */
  function Decide(p: GoPool): (r: (GoPool, Retrieval))
    requires p.locked
    ensures !r.0.locked
  {
    var p := p.(locked := false);
    if p.idle > 0 then (p.(idle := p.idle - 1), Reused)
    else if p.capacity == -1 || p.capacity > p.running then (p.(running := p.running + 1), Spawned)
    else if p.options.nonBlocking || (p.options.maxBlockingTasks != 0 && p.waiting >= p.options.maxBlockingTasks) then
      (p, Failed(ErrTooManyBlocked))
    else (p.(waiting := p.waiting + 1), Parked)
  }

  /** The decision order, stated on the pool's fields. */
  lemma DecisionOrder(p: GoPool)
    requires p.locked
    ensures var (p', d) := Decide(p);
      && (d == Reused <==> p.idle > 0)
      && (d == Spawned <==> p.idle == 0 && (p.capacity == -1 || p.capacity > p.running))
      && (d.Failed? <==> (
            && p.idle == 0
            && !(p.capacity == -1 || p.capacity > p.running)
            && (p.options.nonBlocking || (p.options.maxBlockingTasks != 0 && p.waiting >= p.options.maxBlockingTasks))))
      && (d.Failed? ==> d.err == ErrTooManyBlocked)
      && (d == Parked ==> p'.waiting == p.waiting + 1)
      && p'.state == p.state && p'.capacity == p.capacity
  {
  }

  /** A decision keeps a valid pool valid. */
  lemma DecideKeepsValid(p: GoPool)
    requires Valid(p.(locked := false)) && p.locked
    ensures Valid(Decide(p).0)
  {
  }

  /** `retrieveWorker` as written: the closed check returns still holding the lock. */
  function RetrieveWorkerAsWritten(p: GoPool): (r: Call<GoPool, (GoPool, Retrieval)>)
    ensures p.locked <==> r.Blocks?
    ensures r.Returns? && p.state == Closed ==> r.value == (p.(locked := true), Failed(ErrSubmitClosed))
  {
    if p.locked then Blocks(p)
    else if p.state == Closed then Returns((p.(locked := true), Failed(ErrSubmitClosed)))
    else Returns(Decide(p.(locked := true)))
  }

  /** `retrieveWorker` with the lock released on the closed path too. */
  function RetrieveWorker(p: GoPool): (r: Call<GoPool, (GoPool, Retrieval)>)
    ensures p.locked <==> r.Blocks?
    ensures r.Returns? ==> !r.value.0.locked
    ensures r.Returns? && p.state == Closed ==> r.value == (p, Failed(ErrSubmitClosed))
    ensures r.Returns? && p.state == Opened ==> r.value == Decide(p.(locked := true))
  {
    if p.locked then Blocks(p)
    else if p.state == Closed then Returns((p, Failed(ErrSubmitClosed)))
    else Returns(Decide(p.(locked := true)))
  }

  /** A parked submitter wakes from `cond.Wait` as written: it takes the lock back and,
      when the pool was closed meanwhile, returns without releasing it. */
  function WakeAsWritten(p: GoPool): (r: Call<GoPool, (GoPool, Retrieval)>)
    ensures p.locked <==> r.Blocks?
    ensures r.Returns? && p.state == Closed ==> r.value.0.locked && r.value.1 == Failed(ErrSubmitClosed)
    ensures r.Returns? && p.state == Opened ==> r.value == Decide(p.(waiting := p.waiting - 1, locked := true))
  {
    if p.locked then Blocks(p)
    else
      var p := p.(waiting := p.waiting - 1, locked := true);
      if p.state == Closed then Returns((p, Failed(ErrSubmitClosed)))
      else Returns(Decide(p))
  }

  /** The wake-up with the lock released before the closed pool's error is returned. */
  function Wake(p: GoPool): (r: Call<GoPool, (GoPool, Retrieval)>)
    ensures p.locked <==> r.Blocks?
    ensures r.Returns? ==> !r.value.0.locked && r.value.0.state == p.state
    ensures r.Returns? && p.state == Closed ==> r.value == (p.(waiting := p.waiting - 1), Failed(ErrSubmitClosed))
    ensures r.Returns? && p.state == Opened ==> r.value == Decide(p.(waiting := p.waiting - 1, locked := true))
  {
    if p.locked then Blocks(p)
    else
      var p := p.(waiting := p.waiting - 1);
      if p.state == Closed then Returns((p, Failed(ErrSubmitClosed)))
      else Returns(Decide(p.(locked := true)))
  }

  /** The error `Submit` returns for a decision: nil when a worker took the task.  A
      parked submitter has not returned yet; its final result is the wake-up's. */
  function SubmitError(d: Retrieval): (e: Option<Error>)
    ensures e.None? <==> d == Reused || d == Spawned || d == Parked
  {
    if d.Failed? then Some(d.err) else None
  }

  /** `Submit(task)`: a closed pool refuses before looking for a worker. */
  function Submit(p: GoPool): (r: Call<GoPool, (GoPool, Retrieval)>)
    ensures p.state == Closed ==> r == Returns((p, Failed(ErrSubmitClosed)))
    ensures p.state == Opened ==> r == RetrieveWorker(p)
  {
    if IsClosed(p) then Returns((p, Failed(ErrSubmitClosed))) else RetrieveWorker(p)
  }

  /** A submission on a closed pool runs nothing and leaves the pool as it was. */
  lemma SubmitClosedRunsNothing(p: GoPool)
    requires p.state == Closed
    ensures Submit(p).Returns? && Submit(p).value.0 == p
    ensures SubmitError(Submit(p).value.1) == Some(ErrSubmitClosed)
  {
  }

  /** Submitting to a valid pool never blocks and keeps it valid. */
  lemma SubmitKeepsValid(p: GoPool)
    requires Valid(p)
    ensures Submit(p).Returns? && Valid(Submit(p).value.0)
  {
  }

  /** `Release()`: only an open pool is closed; the idle workers are dropped under the
      lock and every parked submitter is woken. The state moves to CLOSED before the
      lock is taken, so a release stuck on a held lock has closed the pool already. */
  function Release(p: GoPool): (r: Call<GoPool, (GoPool, Option<Error>)>)
    ensures p.state == Closed ==> r == Returns((p, Some(ErrReleaseClosed)))
    ensures p.state == Opened ==> (r.Blocks? <==> p.locked)
    ensures p.state == Opened && r.Blocks? ==> r.at == p.(state := Closed)
    ensures p.state == Opened && r.Returns? ==> r.value == (p.(state := Closed, idle := 0), None)
  {
    if p.state != Opened then Returns((p, Some(ErrReleaseClosed)))
    else
      var p := p.(state := Closed);
      if p.locked then Blocks(p)
      else Returns((p.(idle := 0), None))
  }

  /** A release stuck on a held lock has still closed the pool: any submission made
      meanwhile is refused with the closed error, and a second release errors. */
  lemma StuckReleaseRefusesSubmit(p: GoPool)
    requires p.state == Opened && p.locked
    ensures Release(p).Blocks?
    ensures Submit(Release(p).at) == Returns((Release(p).at, Failed(ErrSubmitClosed)))
    ensures Release(Release(p).at) == Returns((Release(p).at, Some(ErrReleaseClosed)))
  {
  }

  /** `Reboot()`: reopens a closed pool; an open pool is left alone. */
  function Reboot(p: GoPool): (p': GoPool)
    ensures p'.state == Opened
    ensures p.state == Opened ==> p' == p
    ensures p' == p.(state := Opened)
  {
    p.(state := Opened)
  }

  /** Release closes once: a second release errors and changes nothing, and a reboot
      opens the pool for a release again. */
  lemma ReleaseOnce(p: GoPool)
    requires Valid(p) && p.state == Opened
    ensures var r1 := Release(p);
      && r1 == Returns((p.(state := Closed, idle := 0), None))
      && Release(r1.value.0) == Returns((r1.value.0, Some(ErrReleaseClosed)))
      && Release(Reboot(r1.value.0)).Returns? && Release(Reboot(r1.value.0)).value.1 == None
  {
  }

  /** `revertWorker(w)`: a worker returns to the idle stack unless the pool is over
      capacity or closed. */
  function RevertWorker(p: GoPool): (r: Call<GoPool, (GoPool, bool)>)
    ensures (p.capacity > 0 && p.running > p.capacity) || p.state == Closed ==> r == Returns((p, false))
    ensures !((p.capacity > 0 && p.running > p.capacity) || p.state == Closed) ==>
      && (r.Blocks? <==> p.locked)
      && (r.Returns? ==> r.value == (p.(idle := p.idle + 1), true))
  {
    if (p.capacity > 0 && p.running > p.capacity) || IsClosed(p) then Returns((p, false))
    else if p.locked then Blocks(p)
    else Returns((p.(idle := p.idle + 1), true))
  }

  /** A worker reverted to a valid open pool is the next one a submitter gets. */
  lemma RevertThenReuse(p: GoPool)
    requires Valid(p) && p.state == Opened
    ensures RevertWorker(p).Returns? && RevertWorker(p).value.1
    ensures Submit(RevertWorker(p).value.0) == Returns((p, Reused))
  {
  }

  /** A full, blocking pool parks the submitter. */
  ghost predicate Full(p: GoPool) {
    && Valid(p) && p.state == Opened && p.idle == 0
    && p.capacity >= 0 && p.running == p.capacity
    && !p.options.nonBlocking && p.options.maxBlockingTasks == 0
  }

  /** As written: a submitter parked on a full pool, woken by `Release`, returns with the
      lock held, and after `Reboot` the next submission blocks forever. */
  lemma LockLeakBlocksReboot(p: GoPool)
    requires Full(p)
    ensures Submit(p) == Returns((p.(waiting := p.waiting + 1), Parked))
    ensures var p1 := p.(waiting := p.waiting + 1);
            var p2 := Release(p1).value.0;
            var w := WakeAsWritten(p2);
            && Release(p1).Returns?
            && w.Returns? && w.value.1 == Failed(ErrSubmitClosed)
            && Submit(Reboot(w.value.0)).Blocks?
  {
  }

  /** The same on a pool that is already closed when `retrieveWorker` takes the lock. */
  lemma ClosedRetrieveLeaks(p: GoPool)
    requires Valid(p) && p.state == Closed
    ensures RetrieveWorkerAsWritten(p).Returns?
    ensures Submit(Reboot(RetrieveWorkerAsWritten(p).value.0)).Blocks?
  {
  }

  /** Corrected: the woken submitter gets the closed error, the pool stays valid, and
      after `Reboot` submissions proceed. */
  lemma WakeAfterReleaseRecovers(p: GoPool)
    requires Full(p)
    ensures var p1 := p.(waiting := p.waiting + 1);
            var p2 := Release(p1).value.0;
            var w := Wake(p2);
            && Release(p1).Returns?
            && w.Returns? && w.value.1 == Failed(ErrSubmitClosed)
            && Valid(w.value.0)
            && Submit(Reboot(w.value.0)).Returns?
  {
  }

  /** Every corrected step keeps a valid pool valid and never blocks. */
  lemma StepsKeepValid(p: GoPool)
    requires Valid(p)
    ensures RetrieveWorker(p).Returns? && Valid(RetrieveWorker(p).value.0)
    ensures p.waiting >= 1 ==> Wake(p).Returns? && Valid(Wake(p).value.0)
    ensures Release(p).Returns? && Valid(Release(p).value.0)
    ensures Valid(Reboot(p))
    ensures RevertWorker(p).Returns? && Valid(RevertWorker(p).value.0)
  {
  }
}
