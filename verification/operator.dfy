/** The file-descriptor operator: the handle that ties one fd to its completion
    callbacks and to the ring that owns it, plus its detach-once guard. */
module Operator {
  import opened Base

  /** Identifies one ring instance. */
  type RingId = nat

  /** Identifies one stored Go closure; `None` is a nil func field. */
  type Callback = nat

  /** The events `control` distinguishes: only `RingDetach` is special-cased. */
  datatype ControlEvent = RingDetach | RingEvent(code: int)

  datatype FDOperator = FDOperator(
    fd: int,
    onAccept: Option<Callback>,
    inputs: Option<Callback>,
    inputAck: Option<Callback>,
    outputs: Option<Callback>,
    outputAck: Option<Callback>,
    ring: Option<RingId>,
    detached: int,     // how many detaches were requested since the last reset
    next: int,         // index of the next free operator in the owning cache, -1 for nil
    index: int)        // this operator's own slot in the owning cache

  /** What `control` did: returned early, or called `ring.Control(op, event)`.  Calling
      through a nil ring is a panic. */
  datatype ControlOutcome = Skipped | Forwarded(ring: RingId, event: ControlEvent) | NilRing

  /** A fresh operator in slot `index` whose `next` is `next`, every other field zero. */
  function NewOperator(index: int, next: int): (op: FDOperator)
    ensures op.index == index && op.next == next
    ensures op.ring == None && op.detached == 0 && op.fd == 0
  {
    FDOperator(0, None, None, None, None, None, None, 0, next, index)
  }

  /** `control(event)`: a detach bumps the counter and reaches the ring only when the
      counter moves from 0 to 1; every other event always reaches the ring. */
  function Control(op: FDOperator, event: ControlEvent): (r: (FDOperator, ControlOutcome))
    ensures event.RingDetach? ==> r.0 == op.(detached := op.detached + 1)
    ensures !event.RingDetach? ==> r.0 == op
    ensures event.RingDetach? && op.detached >= 1 ==> r.1 == Skipped
    ensures (!event.RingDetach? || op.detached < 1) ==>
      r.1 == (if op.ring.Some? then Forwarded(op.ring.value, event) else NilRing)
  {
    var op' := if event.RingDetach? then op.(detached := op.detached + 1) else op;
    if event.RingDetach? && op'.detached > 1 then (op', Skipped)
    else if op.ring.None? then (op', NilRing)
    else (op', Forwarded(op.ring.value, event))
  }

  /** `reset()`: clears the fd, every callback, the ring and the detach counter, and
      keeps the cache links `next` and `index`. */
  function Reset(op: FDOperator): (r: FDOperator)
    ensures r.fd == 0 && r.ring == None && r.detached == 0
    ensures r.onAccept == None && r.inputs == None && r.inputAck == None
    ensures r.outputs == None && r.outputAck == None
    ensures r.next == op.next && r.index == op.index
    ensures r == NewOperator(op.index, op.next)
  {
    op.(fd := 0, onAccept := None, inputs := None, inputAck := None,
        outputs := None, outputAck := None, ring := None, detached := 0)
  }

  /** Only the first of any number of detaches reaches the ring. */
  lemma {:induction false} DetachOnce(op: FDOperator, k: nat)
    requires op.detached == 0 && op.ring.Some?
    ensures Control(op, RingDetach).1 == Forwarded(op.ring.value, RingDetach)
    ensures Control(DetachTimes(Control(op, RingDetach).0, k), RingDetach).1 == Skipped
  {
    DetachTimesCounts(Control(op, RingDetach).0, k);
  }

  /** `k` further detaches in a row. */
  function DetachTimes(op: FDOperator, k: nat): FDOperator
    decreases k
  {
    if k == 0 then op else DetachTimes(Control(op, RingDetach).0, k - 1)
  }

  lemma {:induction false} DetachTimesCounts(op: FDOperator, k: nat)
    ensures DetachTimes(op, k) == op.(detached := op.detached + k)
    decreases k
  {
    if k > 0 {
      DetachTimesCounts(Control(op, RingDetach).0, k - 1);
    }
  }

  /** After `reset`, a detach on a ring-attached operator reaches the ring again, however
      many detaches happened before. */
  lemma ResetRearmsDetach(op: FDOperator, ring: RingId)
    ensures Control(Reset(op).(ring := Some(ring)), RingDetach).1 == Forwarded(ring, RingDetach)
  {
  }
}
