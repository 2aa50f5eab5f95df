/** A connection's sequential state: its keychain, callbacks, buffers and timeouts, the
    event handlers that register and run callbacks, and the reactor's buffer
    transitions.  Every channel send and every ring submission is returned as an
    `Effect` instead of being performed. */
module Conn {
  import opened Base
  import opened Buffer
  import ConnectionLock
  import Ring

  /** Identifies one stored callback closure. */
  type Callback = nat

  /** What a handler hands to the outside: a ring submission (the `RingEventData`), or
      an error sent on the read or write trigger channel (`None` is a nil error). */
  datatype Effect =
    | Submit(event: int, size: int, data: seq<byte>)
    | TriggerRead(err: Option<Error>)
    | TriggerWrite(err: Option<Error>)

  datatype Connection = Connection(
    locker: ConnectionLock.Locker,
    onConnect: Option<Callback>,
    onRequest: Option<Callback>,
    closeCallbacks: seq<Callback>,  // the callback chain from its head: newest first
    input: BytesBuffer,
    output: BytesBuffer,
    waitReadSize: int,
    readTimeout: int,
    writeTimeout: int,
    state: int)                     // 0 connected, 1 closed

  /** The buffer size `init` allocates and the fixed size of one read submission. */
  const InitialBufferSize: nat := 4096
  const DefaultReadSize: nat := 1024

  ghost predicate Valid(c: Connection) {
    && ConnectionLock.Valid(c.locker)
    && Buffer.Valid(c.input) && Buffer.Valid(c.output)
  }

  /** The field initialisation of `init`: connected, no pending wait, no timeouts, two
      empty 4096-byte buffers, no callbacks. */
  function Init(): (c: Connection)
    ensures Valid(c)
    ensures c.state == 0 && c.waitReadSize == 0 && c.readTimeout == 0 && c.writeTimeout == 0
    ensures c.input.cap == InitialBufferSize && Len(c.input) == 0
    ensures c.output.cap == InitialBufferSize && Len(c.output) == 0
    ensures c.closeCallbacks == [] && c.onConnect == None && c.onRequest == None
  {
    WithBuffers(InitialBufferSize)
  }

  /** A connection in its initial state whose two buffers have capacity `size`. */
  function WithBuffers(size: nat): (c: Connection)
    ensures Valid(c)
    ensures c.state == 0 && c.waitReadSize == 0 && c.readTimeout == 0 && c.writeTimeout == 0
    ensures c.input.cap == size && Len(c.input) == 0 && c.input.sliceLen == 0
    ensures c.output.cap == size && Len(c.output) == 0
    ensures c.closeCallbacks == [] && c.onConnect == None && c.onRequest == None
  {
    Connection(ConnectionLock.NewLocker(), None, None, [], NewBytesBuffer(size), NewBytesBuffer(size), 0, 0, 0, 0)
  }

  /** `SetOnConnect`: a nil callback is ignored, anything else replaces the stored one. */
  function SetOnConnect(c: Connection, cb: Option<Callback>): (c': Connection)
    ensures cb.None? ==> c' == c
    ensures cb.Some? ==> c' == c.(onConnect := cb)
  {
    if cb.Some? then c.(onConnect := cb) else c
  }

  /** `SetOnRequest`: a nil callback is ignored, anything else replaces the stored one. */
  function SetOnRequest(c: Connection, cb: Option<Callback>): (c': Connection)
    ensures cb.None? ==> c' == c
    ensures cb.Some? ==> c' == c.(onRequest := cb)
  {
    if cb.Some? then c.(onRequest := cb) else c
  }

  /** `AddCloseCallback`: a nil callback is ignored; otherwise a new node holding it
      becomes the head and points at the previous head. */
  function AddCloseCallback(c: Connection, cb: Option<Callback>): (c': Connection)
    ensures cb.None? ==> c' == c
    ensures cb.Some? ==> c'.closeCallbacks == [cb.value] + c.closeCallbacks
    ensures c' == c.(closeCallbacks := c'.closeCallbacks)
  {
    match cb
    case None => c
    case Some(f) => c.(closeCallbacks := [f] + c.closeCallbacks)
  }

  /** Registering callbacks one after another. */
  function AddCloseCallbacks(c: Connection, cbs: seq<Callback>): (c': Connection)
    ensures Valid(c) ==> Valid(c')
    decreases |cbs|
  {
    if cbs == [] then c else AddCloseCallbacks(AddCloseCallback(c, Some(cbs[0])), cbs[1..])
  }

  /** `closeCallback(needLock, needDetach)`: with `needLock` it first takes the processing
      lock (and keeps it) or gives up; with `needDetach` it stops there; otherwise it
      calls every callback from the head down.  The calls made are returned in order;
      the function's own `error` is always nil, whatever the callbacks return. */
  function CloseCallback(c: Connection, needLock: bool, needDetach: bool): (r: (Connection, seq<Callback>))
    requires Valid(c)
    ensures Valid(r.0)
    ensures needLock && ConnectionLock.Status(c.locker, ConnectionLock.Processing) != 0 ==> r == (c, [])
    ensures needLock && ConnectionLock.Status(c.locker, ConnectionLock.Processing) == 0 ==>
      r.0 == c.(locker := ConnectionLock.Lock(c.locker, ConnectionLock.Processing).0)
    ensures !needLock ==> r.0 == c
    ensures needDetach ==> r.1 == []
    ensures !needDetach && (!needLock || ConnectionLock.Status(c.locker, ConnectionLock.Processing) == 0) ==>
      r.1 == c.closeCallbacks
  {
    var (l, locked) := if needLock then ConnectionLock.Lock(c.locker, ConnectionLock.Processing)
                       else (c.locker, true);
    if !locked then (c, [])
    else if needDetach then (c.(locker := l), [])
    else (c.(locker := l), c.closeCallbacks)
  }

  /** Callbacks run newest first: registering `f1 .. fk` puts them in front of the old
      chain in reverse order of registration. */
  lemma {:induction false} CloseCallbacksNewestFirst(c: Connection, cbs: seq<Callback>)
    ensures AddCloseCallbacks(c, cbs).closeCallbacks == Reverse(cbs) + c.closeCallbacks
    ensures AddCloseCallbacks(c, cbs) == c.(closeCallbacks := Reverse(cbs) + c.closeCallbacks)
    decreases |cbs|
  {
    if cbs != [] {
      var c1 := AddCloseCallback(c, Some(cbs[0]));
      CloseCallbacksNewestFirst(c1, cbs[1..]);
      assert Reverse(cbs) == Reverse(cbs[1..]) + [cbs[0]];
      assert Reverse(cbs[1..]) + ([cbs[0]] + c.closeCallbacks) == Reverse(cbs) + c.closeCallbacks;
    } else {
      assert Reverse(cbs) + c.closeCallbacks == c.closeCallbacks;
    }
  }

  /** Unlocked, with no detach, the run after `k` registrations calls each registered
      callback once, the last registered first. */
  lemma RunOrder(c: Connection, cbs: seq<Callback>)
    requires Valid(c) && c.closeCallbacks == []
    ensures CloseCallback(AddCloseCallbacks(c, cbs), false, false).1 == Reverse(cbs)
  {
    CloseCallbacksNewestFirst(c, cbs);
  }

  const ClosedByUser: Error := Error("closed by user")

  /** `onClose()`: if the user wins the close, both triggers get "closed by user" and the
      callbacks are left to the detach path; otherwise the callbacks run under the
      processing lock. */
  function OnClose(c: Connection): (r: (Connection, seq<Effect>, seq<Callback>))
    requires Valid(c)
    ensures Valid(r.0)
    ensures ConnectionLock.CloseBy(c.locker, ConnectionLock.UserOwner).1 ==>
      && r.1 == [TriggerRead(Some(ClosedByUser)), TriggerWrite(Some(ClosedByUser))]
      && r.2 == []
      && ConnectionLock.IsCloseBy(r.0.locker, ConnectionLock.UserOwner)
    ensures !ConnectionLock.CloseBy(c.locker, ConnectionLock.UserOwner).1 ==>
      && r.1 == []
      && (r.0, r.2) == CloseCallback(c, true, false)
  {
    var (l, won) := ConnectionLock.CloseBy(c.locker, ConnectionLock.UserOwner);
    if won then
      var (c', ran) := CloseCallback(c.(locker := l), true, true);
      (c', [TriggerRead(Some(ClosedByUser)), TriggerWrite(Some(ClosedByUser))], ran)
    else
      var (c', ran) := CloseCallback(c, true, false);
      (c', [], ran)
  }

  /** A user close wins once: it runs no callback and leaves the processing slot locked,
      so a second `onClose` sends nothing more on the triggers and runs no callback. */
  lemma UserCloseOnce(c: Connection)
    requires Valid(c) && ConnectionLock.Status(c.locker, ConnectionLock.Closing) == ConnectionLock.NoneOwner
    ensures OnClose(c).1 != [] && OnClose(c).2 == []
    ensures ConnectionLock.Status(OnClose(c).0.locker, ConnectionLock.Processing) != 0
    ensures OnClose(OnClose(c).0).1 == []
    ensures OnClose(OnClose(c).0).2 == []
  {
  }

  // ---------------------------------------------------------------------------
  // Reactor

  /** `onRead(n, err)`: acknowledges `n` bytes into the input buffer, ignoring the
      buffer's error, then sends `err` on the read trigger. */
  function OnRead(c: Connection, n: int, err: Option<Error>): (r: (Connection, Effect))
    requires Valid(c)
    ensures r.1 == TriggerRead(err)
    ensures r.0 == c.(input := BookAck(c.input, n).0)
    ensures n >= 0 ==> Valid(r.0)
    ensures 0 <= n <= c.input.cap - c.input.end ==> Len(r.0.input) == Len(c.input) + n
    ensures n > c.input.cap - c.input.end ==> r.0 == c
  {
    (c.(input := BookAck(c.input, n).0), TriggerRead(err))
  }

  /** `onWrite(n, err)`: consumes `n` sent bytes from the output buffer, ignoring the
      buffer's error, then sends `err` on the write trigger. */
  function OnWrite(c: Connection, n: nat, err: Option<Error>): (r: (Connection, Effect))
    requires Valid(c)
    ensures r.1 == TriggerWrite(err) && Valid(r.0)
    ensures r.0 == c.(output := SeekAck(c.output, n).0)
    ensures n <= Len(c.output) ==> Unread(r.0.output) == Unread(c.output)[n..]
    ensures n > Len(c.output) ==> r.0 == c
  {
    (c.(output := SeekAck(c.output, n).0), TriggerWrite(err))
  }

  /** `submitRead()`: books `defaultReadSize` bytes of input and submits a read of that
      size into the booked window. */
  function SubmitRead(c: Connection): (r: Result<(Connection, Effect)>)
    requires Valid(c)
    ensures !r.Err?
    ensures c.input.cap >= DefaultReadSize ==> r.Ok?
    ensures r.Ok? ==>
      && Valid(r.value.0)
      && Book(c.input, DefaultReadSize).Ok? && r.value.0 == c.(input := Book(c.input, DefaultReadSize).value)
      && r.value.0.input.end + DefaultReadSize <= r.value.0.input.cap
      && Unread(r.value.0.input) == Unread(c.input)
      && r.value.1.Submit? && r.value.1.event == Ring.RingPrepRead
      && r.value.1.size == DefaultReadSize && |r.value.1.data| == DefaultReadSize
  {
    match Book(c.input, DefaultReadSize)
    case Ok(b) =>
      var window := b.mem[b.end..b.end + DefaultReadSize];
      Ok((c.(input := b), Submit(Ring.RingPrepRead, DefaultReadSize, window)))
    case _ => Fault
  }

  /** `submitRead()` over `Book` exactly as written. Without a growth it is `SubmitRead`;
      a growth keeps an unread byte only when it lies below the old slice length, and
      zeroes the rest. */
  function SubmitReadAsWritten(c: Connection): (r: Result<(Connection, Effect)>)
    requires Valid(c)
    ensures !r.Err?
    ensures c.input.cap >= DefaultReadSize ==> r.Ok?
    ensures c.input.cap - c.input.end >= DefaultReadSize ==> r == SubmitRead(c)
    ensures r.Ok? ==>
      && Valid(r.value.0) && r.value.0 == c.(input := r.value.0.input)
      && r.value.0.input.start == c.input.start && r.value.0.input.end == c.input.end
      && r.value.0.input.end + DefaultReadSize <= r.value.0.input.cap
    ensures r.Ok? && c.input.cap - c.input.end < DefaultReadSize ==>
      forall i :: 0 <= i < Len(c.input) ==>
        Unread(r.value.0.input)[i] == (if c.input.start + i < c.input.sliceLen then Unread(c.input)[i] else 0)
  {
    match BookAsWritten(c.input, DefaultReadSize)
    case Ok(b) =>
      var window := b.mem[b.end..b.end + DefaultReadSize];
      Ok((c.(input := b), Submit(Ring.RingPrepRead, DefaultReadSize, window)))
    case _ => Fault
  }

  /** `submitWrite()`: submits every pending output byte, without consuming any. */
  function SubmitWrite(c: Connection): (r: (Connection, Effect))
    requires Valid(c)
    ensures r.0 == c
    ensures r.1 == Submit(Ring.RingPrepWrite, Len(c.output), Unread(c.output))
  {
    var size := Len(c.output);
    var data := Seek(c.output, size);
    (c, Submit(Ring.RingPrepWrite, size, data.value))
  }

  /** A read round: submit, the kernel fills `data` into the window, `onRead(|data|)`;
      the bytes land after the unread input. */
  lemma ReadRoundAppends(c: Connection, data: seq<byte>, err: Option<Error>)
    requires Valid(c) && c.input.cap >= DefaultReadSize && |data| <= DefaultReadSize
    ensures var s := SubmitRead(c).value.0;
            var filled := s.(input := WriteBooked(s.input, data));
            var r := OnRead(filled, |data|, err);
            Valid(r.0) && Unread(r.0.input) == Unread(c.input) + data && r.1 == TriggerRead(err)
  {
    BookFillAck(c.input, data);
  }

  /** As written, a read round that has to grow a buffer whose slice length lies at or
      below the read cursor (a buffer that has never grown has slice length 0) replaces
      every unread byte with 0 before appending the new bytes. */
  lemma ReadRoundAsWrittenZeroes(c: Connection, data: seq<byte>, err: Option<Error>)
    requires Valid(c) && c.input.cap >= DefaultReadSize && |data| <= DefaultReadSize
    requires c.input.sliceLen <= c.input.start && c.input.cap - c.input.end < DefaultReadSize
    ensures var s := SubmitReadAsWritten(c).value.0;
            var filled := s.(input := WriteBooked(s.input, data));
            var r := OnRead(filled, |data|, err);
            Valid(r.0) && Unread(r.0.input) == Zeros(Len(c.input)) + data && r.1 == TriggerRead(err)
  {
    var s := SubmitReadAsWritten(c).value.0;
    var b2 := WriteBooked(s.input, data);
    var r := OnRead(s.(input := b2), |data|, err);
    assert Unread(s.input) == Zeros(Len(c.input));
    assert Unread(r.0.input) == b2.mem[c.input.start..c.input.end + |data|];
    assert b2.mem[c.input.start..c.input.end + |data|]
        == b2.mem[c.input.start..c.input.end] + b2.mem[c.input.end..c.input.end + |data|];
  }

  /** A write round that the kernel completes in full empties the output buffer. */
  lemma WriteRoundDrains(c: Connection, err: Option<Error>)
    requires Valid(c)
    ensures var s := SubmitWrite(c);
            Len(OnWrite(s.0, s.1.size, err).0.output) == 0
  {
  }
}
