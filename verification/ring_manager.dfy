/** The ring manager: how many event loops exist, the ring slice, and the balancer that
    spreads new connections over it. */
module RingManager {
  import opened Base
  import opened Operator
  import LoadBalance

  /** `manager`; a nil balancer is `None`. */
  datatype Manager = Manager(numLoops: int, balance: Option<LoadBalance.LB>, rings: seq<RingId>)

  /** Opening the ring for loop `i`; an `Err` is `openDefaultPoll` failing. */
  type Opener = nat -> Result<RingId>

  /** The error a ring's `Close` returns. */
  type Closer = RingId -> Option<Error>

  /** One ring per loop: every operation below keeps this. */
  ghost predicate Valid(m: Manager) {
    m.numLoops == |m.rings|
  }

  /** The loop count chosen at package initialisation from `GOMAXPROCS`. */
  function InitialLoops(procs: nat): (n: int)
    ensures n >= 1 && n == procs / 20 + 1
  {
    procs / 20 + 1
  }

  /** Every open of loops `lo .. hi-1` succeeds. */
  ghost predicate OpensSucceed(open: Opener, lo: nat, hi: nat) {
    forall i :: lo <= i < hi ==> open(i).Ok?
  }

  /** The rings those opens produce, in loop order. */
  function Opened(open: Opener, lo: nat, hi: nat): (rs: seq<RingId>)
    requires OpensSucceed(open, lo, hi)
    ensures |rs| == if lo <= hi then hi - lo else 0
    ensures forall k :: 0 <= k < |rs| ==> rs[k] == open(lo + k).value
    decreases hi - lo
  {
    if lo >= hi then [] else [open(lo).value] + Opened(open, lo + 1, hi)
  }

  /** `for _, ring := range rings { err = ring.Close() }`: every ring is closed in turn
      and `err` keeps only the latest return value, nil included. The second component
      lists the rings closed, in the order they were closed. */
  function CloseEach(rings: seq<RingId>, closeErr: Closer, err: Option<Error>): (r: (Option<Error>, seq<RingId>))
    decreases |rings|
  {
    if rings == [] then (err, [])
    else
      var rest := CloseEach(rings[1..], closeErr, closeErr(rings[0]));
      (rest.0, [rings[0]] + rest.1)
  }

  /** The loop closes every ring exactly once, in slice order, and reports the last
      ring's close error, forgetting every earlier one. */
  lemma {:induction false} CloseEachLast(rings: seq<RingId>, closeErr: Closer, err: Option<Error>)
    ensures CloseEach(rings, closeErr, err).0 == if rings == [] then err else closeErr(rings[|rings| - 1])
    ensures CloseEach(rings, closeErr, err).1 == rings
    decreases |rings|
  {
    if rings != [] {
      CloseEachLast(rings[1..], closeErr, closeErr(rings[0]));
      assert [rings[0]] + rings[1..] == rings;
    }
  }

  /** `close()`: closes every ring, then drops the balancer and all loops. The third
      component lists the rings closed. */
  function Close(m: Manager, closeErr: Closer): (r: (Manager, Option<Error>, seq<RingId>))
    ensures r.0 == Manager(0, None, []) && Valid(r.0)
    ensures r.1 == if m.rings == [] then None else closeErr(m.rings[|m.rings| - 1])
    ensures r.2 == m.rings
  {
    CloseEachLast(m.rings, closeErr, None);
    var (err, closed) := CloseEach(m.rings, closeErr, None);
    (Manager(0, None, []), err, closed)
  }

  /** `run()`: opens rings until there is one per loop, then rebalances over them; the
      first failed open closes the manager and returns that error. The third component
      lists the rings closed on the way. */
  function Run(m: Manager, open: Opener, closeErr: Closer): (r: (Manager, Outcome, seq<RingId>))
    decreases m.numLoops - |m.rings|
  {
    if |m.rings| < m.numLoops then
      match open(|m.rings|)
      case Ok(ring) => Run(m.(rings := m.rings + [ring]), open, closeErr)
      case Err(e) => var c := Close(m, closeErr); (c.0, Failure(e), c.2)
      case Fault => (m, Panic, [])
    else if m.balance.None? then (m, Panic, [])
    else (m.(balance := Some(LoadBalance.Rebalance(m.balance.value, m.rings))), Success, [])
  }

  /** When every open succeeds, `run` keeps the existing rings as a prefix, appends one
      new ring per missing loop, rebalances over the whole slice, and closes nothing. */
  lemma {:induction false} RunSucceeds(m: Manager, open: Opener, closeErr: Closer)
    requires |m.rings| <= m.numLoops && m.balance.Some?
    requires OpensSucceed(open, |m.rings|, m.numLoops)
    ensures Run(m, open, closeErr).1 == Success
    ensures Run(m, open, closeErr).0.rings == m.rings + Opened(open, |m.rings|, m.numLoops)
    ensures Valid(Run(m, open, closeErr).0)
    ensures Run(m, open, closeErr).0.balance ==
      Some(LoadBalance.Rebalance(m.balance.value, m.rings + Opened(open, |m.rings|, m.numLoops)))
    ensures Run(m, open, closeErr).2 == []
    decreases m.numLoops - |m.rings|
  {
    if |m.rings| < m.numLoops {
      var ring := open(|m.rings|).value;
      var m' := m.(rings := m.rings + [ring]);
      RunSucceeds(m', open, closeErr);
      assert m.rings + Opened(open, |m.rings|, m.numLoops)
          == m'.rings + Opened(open, |m'.rings|, m.numLoops);
    } else {
      assert m.rings + Opened(open, |m.rings|, m.numLoops) == m.rings;
    }
  }

  /** When the open of loop `f` fails after every earlier one succeeded, `run` returns
      that error, closes every ring the manager held, the new ones included, and leaves
      the manager closed: no loops, no rings, no balancer. */
  lemma {:induction false} RunFails(m: Manager, open: Opener, closeErr: Closer, f: nat)
    requires |m.rings| <= f < m.numLoops
    requires OpensSucceed(open, |m.rings|, f) && open(f).Err?
    ensures Run(m, open, closeErr)
      == (Manager(0, None, []), Failure(open(f).error), m.rings + Opened(open, |m.rings|, f))
    decreases m.numLoops - |m.rings|
  {
    if |m.rings| < f {
      var m' := m.(rings := m.rings + [open(|m.rings|).value]);
      RunFails(m', open, closeErr, f);
      assert m.rings + Opened(open, |m.rings|, f) == m'.rings + Opened(open, |m'.rings|, f);
    } else {
      assert m.rings + Opened(open, |m.rings|, f) == m.rings;
    }
  }

  /** The shrink loop of `setNumLoops`: indices below `n` are copied into the new slice,
      the rest are closed (and listed in `closed`), and `err` keeps the latest close
      result. */
  function ShrinkLoop(rings: seq<RingId>, n: nat, index: nat, kept: seq<RingId>, closed: seq<RingId>,
                      closeErr: Closer, err: Option<Error>): (Option<Error>, seq<RingId>, seq<RingId>)
    decreases |rings| - index
  {
    if index >= |rings| then (err, kept, closed)
    else if index < n then ShrinkLoop(rings, n, index + 1, kept + [rings[index]], closed, closeErr, err)
    else ShrinkLoop(rings, n, index + 1, kept, closed + [rings[index]], closeErr, closeErr(rings[index]))
  }

  /** The shrink loop keeps exactly the first `n` rings in order, closes exactly the
      others in order, and reports the close error of the last ring. */
  lemma {:induction false} ShrinkLoopKeepsPrefix(rings: seq<RingId>, n: nat, index: nat,
                                                 closeErr: Closer, err: Option<Error>)
    requires index <= n < |rings|
    ensures ShrinkLoop(rings, n, index, rings[..index], [], closeErr, err)
      == (closeErr(rings[|rings| - 1]), rings[..n], rings[n..])
    decreases |rings| - index
  {
    if index < n {
      assert rings[..index] + [rings[index]] == rings[..index + 1];
      ShrinkLoopKeepsPrefix(rings, n, index + 1, closeErr, err);
    } else {
      assert rings[n..n] == [];
      ShrinkTail(rings, n, index, closeErr, err);
    }
  }

  lemma {:induction false} ShrinkTail(rings: seq<RingId>, n: nat, index: nat,
                                      closeErr: Closer, err: Option<Error>)
    requires n <= index < |rings|
    ensures ShrinkLoop(rings, n, index, rings[..n], rings[n..index], closeErr, err)
      == (closeErr(rings[|rings| - 1]), rings[..n], rings[n..])
    decreases |rings| - index
  {
    assert rings[n..index] + [rings[index]] == rings[n..index + 1];
    if index + 1 < |rings| {
      ShrinkTail(rings, n, index + 1, closeErr, closeErr(rings[index]));
    } else {
      assert rings[n..index + 1] == rings[n..];
    }
  }

  /** `setNumLoops(n)`: rejects `n < 1`; shrinking keeps a prefix, closes the rest and
      rebalances; anything else records `n` and lets `run` open the missing rings. The
      third component lists the rings closed. */
  function SetNumLoops(m: Manager, n: int, open: Opener, closeErr: Closer): (r: (Manager, Outcome, seq<RingId>))
    requires Valid(m)
    ensures n < 1 ==> r == (m, Failure(Error("set invalid numLoops")), [])
    ensures 1 <= n < m.numLoops ==> r.2 == m.rings[n..]
    ensures 1 <= n < m.numLoops && m.balance.Some? ==>
      && r.0 == Manager(n, Some(LoadBalance.Rebalance(m.balance.value, m.rings[..n])), m.rings[..n])
      && r.1 == (match closeErr(m.rings[|m.rings| - 1]) case None => Success case Some(e) => Failure(e))
    ensures 1 <= n < m.numLoops && m.balance.None? ==> r == (Manager(n, None, m.rings[..n]), Panic, m.rings[n..])
    ensures n >= 1 && n >= m.numLoops ==> r == Run(m.(numLoops := n), open, closeErr)
  {
    if n < 1 then (m, Failure(Error("set invalid numLoops")), [])
    else if n < m.numLoops then
      ShrinkLoopKeepsPrefix(m.rings, n, 0, closeErr, None);
      assert m.rings[..0] == [];
      var (err, rings, closed) := ShrinkLoop(m.rings, n, 0, [], [], closeErr, None);
      if m.balance.None? then (Manager(n, None, rings), Panic, closed)
      else
        var m' := Manager(n, Some(LoadBalance.Rebalance(m.balance.value, rings)), rings);
        (m', match err case None => Success case Some(e) => Failure(e), closed)
    else Run(m.(numLoops := n), open, closeErr)
  }

  /** Growing through `setNumLoops` with working opens ends with `n` loops, the old rings
      as a prefix of the new slice, the balancer over exactly that slice, and no ring
      closed. */
  lemma SetNumLoopsGrows(m: Manager, n: int, open: Opener, closeErr: Closer)
    requires Valid(m) && m.balance.Some? && n >= 1 && n >= m.numLoops
    requires OpensSucceed(open, |m.rings|, n)
    ensures SetNumLoops(m, n, open, closeErr).1 == Success
    ensures Valid(SetNumLoops(m, n, open, closeErr).0)
    ensures SetNumLoops(m, n, open, closeErr).0.numLoops == n
    ensures SetNumLoops(m, n, open, closeErr).0.rings == m.rings + Opened(open, |m.rings|, n)
    ensures SetNumLoops(m, n, open, closeErr).0.balance.Some? && SetNumLoops(m, n, open, closeErr).0.balance.value.rings == SetNumLoops(m, n, open, closeErr).0.rings
    ensures SetNumLoops(m, n, open, closeErr).2 == []
  {
    RunSucceeds(m.(numLoops := n), open, closeErr);
  }

  /** `reset()`: closes every ring (ignoring errors), empties the slice and reopens one
      ring per loop. The third component lists the rings closed: the old ones first, in
      slice order, then any that a failing `run` closes. */
  function Reset(m: Manager, open: Opener, closeErr: Closer): (r: (Manager, Outcome, seq<RingId>))
    requires Valid(m)
    ensures |r.2| >= |m.rings| && r.2[..|m.rings|] == m.rings
  {
    var run := Run(m.(rings := []), open, closeErr);
    assert (m.rings + run.2)[..|m.rings|] == m.rings;
    (run.0, run.1, m.rings + run.2)
  }

  /** With working opens, `reset` closes exactly the old rings, in order, and rebuilds
      exactly `numLoops` fresh rings. */
  lemma ResetRebuilds(m: Manager, open: Opener, closeErr: Closer)
    requires Valid(m) && m.balance.Some? && OpensSucceed(open, 0, m.numLoops)
    ensures Reset(m, open, closeErr).1 == Success
    ensures Reset(m, open, closeErr).0.rings == Opened(open, 0, m.numLoops)
    ensures Valid(Reset(m, open, closeErr).0)
    ensures Reset(m, open, closeErr).2 == m.rings
  {
    RunSucceeds(m.(rings := []), open, closeErr);
    assert m.rings + [] == m.rings;
  }

  /** When reopening fails at loop `f`, `reset` returns that error, leaves the manager
      closed, and has closed the old rings and then the `f` rings it had reopened. */
  lemma ResetFails(m: Manager, open: Opener, closeErr: Closer, f: nat)
    requires Valid(m) && f < m.numLoops && OpensSucceed(open, 0, f) && open(f).Err?
    ensures Reset(m, open, closeErr)
      == (Manager(0, None, []), Failure(open(f).error), m.rings + Opened(open, 0, f))
  {
    RunFails(m.(rings := []), open, closeErr, f);
    assert [] + Opened(open, 0, f) == Opened(open, 0, f);
  }

  /** `pick()`: asks the balancer; a nil balancer panics. */
  function Pick(m: Manager): (r: (Manager, Result<RingId>))
    ensures m.balance.None? ==> r == (m, Fault)
    ensures m.balance.Some? && LoadBalance.Valid(m.balance.value) && |m.balance.value.rings| > 0 ==>
      r.1 == Ok(m.balance.value.rings[(m.balance.value.accepted + 1) % |m.balance.value.rings|])
  {
    if m.balance.None? then (m, Fault)
    else
      var (b, ring) := LoadBalance.Pick(m.balance.value);
      (m.(balance := Some(b)), ring)
  }

  /** Package initialisation as written: the zero `manager` has a nil balancer, so the
      first `setNumLoops` reaches `rebalance` through nil. */
  function InitAsWritten(procs: nat, open: Opener, closeErr: Closer): (r: (Manager, Outcome, seq<RingId>))
  {
    SetNumLoops(Manager(0, None, []), InitialLoops(procs), open, closeErr)
  }

  /** With working opens, initialisation as written always panics. */
  lemma InitAsWrittenPanics(procs: nat, open: Opener, closeErr: Closer)
    requires OpensSucceed(open, 0, InitialLoops(procs))
    ensures InitAsWritten(procs, open, closeErr).1 == Panic
  {
    RunOpensThenPanics(Manager(InitialLoops(procs), None, []), open, closeErr);
  }

  lemma {:induction false} RunOpensThenPanics(m: Manager, open: Opener, closeErr: Closer)
    requires |m.rings| <= m.numLoops && m.balance.None?
    requires OpensSucceed(open, |m.rings|, m.numLoops)
    ensures Run(m, open, closeErr).1 == Panic
    decreases m.numLoops - |m.rings|
  {
    if |m.rings| < m.numLoops {
      RunOpensThenPanics(m.(rings := m.rings + [open(|m.rings|).value]), open, closeErr);
    }
  }

  /** Initialisation with the balancer created up front over no rings. */
  function Init(procs: nat, open: Opener, closeErr: Closer): (r: (Manager, Outcome, seq<RingId>))
  {
    SetNumLoops(Manager(0, Some(LoadBalance.NewLoadBalance([])), []), InitialLoops(procs), open, closeErr)
  }

  /** With working opens the corrected initialisation starts `GOMAXPROCS/20 + 1` loops,
      each with its own ring, and the balancer covers all of them. */
  lemma InitStartsLoops(procs: nat, open: Opener, closeErr: Closer)
    requires OpensSucceed(open, 0, InitialLoops(procs))
    ensures Init(procs, open, closeErr).1 == Success
    ensures Init(procs, open, closeErr).0.numLoops == procs / 20 + 1
    ensures Init(procs, open, closeErr).0.rings == Opened(open, 0, InitialLoops(procs))
    ensures Init(procs, open, closeErr).0.balance.Some? && Init(procs, open, closeErr).0.balance.value.rings == Init(procs, open, closeErr).0.rings
  {
    SetNumLoopsGrows(Manager(0, Some(LoadBalance.NewLoadBalance([])), []), InitialLoops(procs), open, closeErr);
  }
}
