/** The io_uring-backed ring without its kernel calls: the user-data tag that carries
    `(event, fd)` through a submission and its completion, and operator allocation from
    the ring's operator cache. */
module Ring {
  import opened Base
  import opened Operator
  import OperatorCache
  import Bits

  /** Submission event kinds. */
  const RingPrepRead: int := 1
  const RingPrepWrite: int := 2

  const Pow32: nat := 0x1_0000_0000
  const Pow56: nat := 0x100_0000_0000_0000
  const Pow64: nat := 0x1_0000_0000_0000_0000

  /** Go's `uint64(x)` conversion of an `int`: two's-complement wrap-around. */
  function ToUint64(x: int): (u: nat)
    ensures u < Pow64
    ensures 0 <= x < Pow64 ==> u == x
  {
    x % Pow64
  }

  /** `encodeUserData(event, fd)`: the fd in the low bits OR the event shifted up 56,
      with the shift dropping whatever leaves the 64-bit word. */
  function EncodeUserData(event: int, fd: int): (data: nat)
    ensures data < Pow64
  {
    Bits.Pow2Values();
    var shifted := (ToUint64(event) * Pow56) % Pow64;
    Bits.OrBound(ToUint64(fd), shifted, 64);
    Bits.BitOr(ToUint64(fd), shifted)
  }

  /** `decodeUserData(data)`: the event is the top byte and the fd the low 32 bits. */
  function DecodeUserData(data: nat): (r: (int, int))
    requires data < Pow64
    ensures 0 <= r.0 < 256 && r.0 == data / Pow56
    ensures 0 <= r.1 < Pow32 && r.1 == data % Pow32
  {
    Bits.Pow2Values();
    Bits.AndLowMask(data, 32);
    (data / Pow56, Bits.BitAnd(data, Pow32 - 1))
  }

  /** For an event byte and an fd below 2^56 the tag is `fd + event * 2^56`. */
  lemma EncodeIsSum(event: int, fd: int)
    requires 0 <= event < 256 && 0 <= fd < Pow56
    ensures EncodeUserData(event, fd) == fd + event * Pow56
  {
    Bits.Pow2Values();
    var shifted := event * Pow56;
    assert shifted < Pow64;
    assert ToUint64(event) == event && ToUint64(fd) == fd;
    assert (ToUint64(event) * Pow56) % Pow64 == shifted;
    Bits.OrShifted(fd, event, 56);
  }

  /** The event comes back whole and the fd comes back modulo 2^32. */
  lemma DecodeEncode(event: int, fd: int)
    requires 0 <= event < 256 && 0 <= fd < Pow56
    ensures DecodeUserData(EncodeUserData(event, fd)) == (event, fd % Pow32)
  {
    EncodeIsSum(event, fd);
    var d := fd + event * Pow56;
    Bits.DivModUnique(d, Pow56, event, fd);
    assert d == Pow32 * (fd / Pow32 + event * 0x100_0000) + fd % Pow32;
    Bits.DivModUnique(d, Pow32, fd / Pow32 + event * 0x100_0000, fd % Pow32);
  }

  /** Round trip: `(event, fd)` is recovered exactly when the fd fits in 32 bits; for
      `2^32 <= fd < 2^56` the mask drops the high bits although the shift leaves room. */
  lemma RoundTrip(event: int, fd: int)
    requires 0 <= event < 256 && 0 <= fd < Pow56
    ensures DecodeUserData(EncodeUserData(event, fd)) == (event, fd) <==> fd < Pow32
  {
    DecodeEncode(event, fd);
  }

  /** Read and write submissions with a 32-bit fd come back intact. */
  lemma PrepEventsRoundTrip(fd: int)
    requires 0 <= fd < Pow32
    ensures DecodeUserData(EncodeUserData(RingPrepRead, fd)) == (RingPrepRead, fd)
    ensures DecodeUserData(EncodeUserData(RingPrepWrite, fd)) == (RingPrepWrite, fd)
  {
    RoundTrip(RingPrepRead, fd);
    RoundTrip(RingPrepWrite, fd);
  }

  /** A ring reduced to its identity and its operator cache. */
  datatype RingState = RingState(id: RingId, opcache: OperatorCache.Cache)

  /** `Alloc()`: takes the cache's next operator and points its ring at this ring. */
  function Alloc(r: RingState): (res: (RingState, int))
    requires OperatorCache.Valid(r.opcache)
    ensures OperatorCache.Valid(res.0.opcache) && res.0.id == r.id
    ensures 0 <= res.1 < |res.0.opcache.ops|
    ensures res.1 == OperatorCache.Alloc(r.opcache).1
    ensures res.0.opcache.ops[res.1].ring == Some(r.id)
    ensures res.0.opcache.first == OperatorCache.Alloc(r.opcache).0.first
    ensures res.0.opcache.freelist == r.opcache.freelist
    ensures |res.0.opcache.ops| == |OperatorCache.Alloc(r.opcache).0.ops|
    ensures forall i :: 0 <= i < |res.0.opcache.ops| && i != res.1 ==>
      res.0.opcache.ops[i] == OperatorCache.Alloc(r.opcache).0.ops[i]
  {
    var (c, slot) := OperatorCache.Alloc(r.opcache);
    var op := c.ops[slot].(ring := Some(r.id));
    (r.(opcache := c.(ops := c.ops[slot := op])), slot)
  }

  /** `Free(op)`: only queues the operator on the cache's pending list. */
  function Free(r: RingState, op: FDOperator): (res: RingState)
    requires OperatorCache.Valid(r.opcache) && 0 <= op.index < |r.opcache.ops|
    ensures OperatorCache.Valid(res.opcache) && res.id == r.id
    ensures res.opcache.ops == r.opcache.ops && res.opcache.first == r.opcache.first
    ensures res.opcache.freelist == r.opcache.freelist + [op.index]
  {
    r.(opcache := OperatorCache.Freeable(r.opcache, op))
  }

  /** `FDOperator.free()`: delegates to the owning ring's `Free`; a nil ring panics. */
  function FreeOperator(rings: map<RingId, RingState>, op: FDOperator): (res: Result<map<RingId, RingState>>)
    requires forall id :: id in rings ==> OperatorCache.Valid(rings[id].opcache) && rings[id].id == id
    requires op.ring.Some? ==> op.ring.value in rings && 0 <= op.index < |rings[op.ring.value].opcache.ops|
    ensures op.ring.None? <==> res.Fault?
    ensures !res.Err?
    ensures res.Ok? ==>
      && res.value.Keys == rings.Keys
      && res.value[op.ring.value] == Free(rings[op.ring.value], op)
      && (forall id :: id in rings && id != op.ring.value ==> res.value[id] == rings[id])
  {
    if op.ring.None? then Fault
    else Ok(rings[op.ring.value := Free(rings[op.ring.value], op)])
  }
}
