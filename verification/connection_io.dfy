/** The blocking side of a connection: reads and flushes that submit to the ring and then
    wait on a trigger.  The ring's completions are an input sequence: each read
    completion carries the bytes the kernel wrote into the booked window and the error
    `onRead` passes on; each write completion carries the count `onWrite` receives.
    Running out of completions means the caller would still be waiting: `Blocked`. */
module ConnectionIO {
  import opened Base
  import opened Buffer
  import opened Conn

  datatype ReadCompletion = ReadCompletion(data: seq<byte>, err: Option<Error>)
  datatype WriteCompletion = WriteCompletion(n: nat, err: Option<Error>)

  /** How a blocking call ends: it returned a value, it returned an error, or it is still
      waiting for a trigger when the completions run out. */
  datatype Waited<T> = Returned(value: T) | Failed(error: Error) | Blocked

  const EOF: Error := Error("EOF")

  /** A connection whose input buffer can always take a read booking; `init`'s 4096-byte
      buffers satisfy this and booking only ever grows a buffer. */
  ghost predicate Ready(c: Connection) {
    Conn.Valid(c) && c.input.cap >= DefaultReadSize
  }

  /** A read completion the kernel can deliver: it never writes more than the one read
      booking it was given. */
  type KernelRead = r: ReadCompletion | |r.data| <= DefaultReadSize witness ReadCompletion([], None)

  /** All bytes the given read completions delivered, in order. */
  function Received(comps: seq<KernelRead>): (bs: seq<byte>)
    decreases |comps|
  {
    if comps == [] then [] else comps[0].data + Received(comps[1..])
  }

  lemma ReceivedStep(comps: seq<KernelRead>, k: nat)
    requires k < |comps|
    ensures Received(comps[..k + 1]) == comps[0].data + Received(comps[1..][..k])
  {
    assert comps[..k + 1][1..] == comps[1..][..k];
  }

  /** One iteration of a read wait, written as its net effect on the input buffer: the
      booking of `submitRead` (doubling the buffer when fewer than `defaultReadSize`
      bytes are free), the kernel writing the completion's bytes into the window, and
      `onRead` publishing them.  `RoundIsSubmitFillAck` proves it equal to that
      composition. */
  function ReadRound(c: Connection, comp: KernelRead): (c': Connection)
    requires Ready(c)
    ensures Ready(c') && c' == c.(input := c'.input)
    ensures Len(c'.input) == Len(c.input) + |comp.data|
  {
    var b := c.input;
    var g := if b.cap - b.end < DefaultReadSize
      then BytesBuffer(b.mem[..b.end] + Zeros(2 * b.cap - b.end), b.end, b.start, b.end, 2 * b.cap)
      else b;
    var n := |comp.data|;
    c.(input := g.(mem := g.mem[..g.end] + comp.data + g.mem[g.end + n..], end := g.end + n))
  }

  /** The round is `submitRead`, the kernel's write into the booked window, and
      `onRead` with the number of bytes written. */
  lemma RoundIsSubmitFillAck(c: Connection, comp: KernelRead)
    requires Ready(c)
    ensures var s := SubmitRead(c).value.0;
            ReadRound(c, comp) == OnRead(s.(input := WriteBooked(s.input, comp.data)), |comp.data|, comp.err).0
  {
    if c.input.cap - c.input.end < DefaultReadSize {
    } else {
    }
  }

  /** A round appends the completion's bytes to the unread input. */
  lemma RoundAppends(c: Connection, comp: KernelRead)
    requires Ready(c)
    ensures Unread(ReadRound(c, comp).input) == Unread(c.input) + comp.data
  {
    ReadRoundAppends(c, comp.data, comp.err);
    RoundIsSubmitFillAck(c, comp);
  }

  /** One read round over `Book` exactly as written: `submitRead`, the kernel's write
      into the booked window, and `onRead`. */
  function ReadRoundAsWritten(c: Connection, comp: KernelRead): (c': Connection)
    requires Ready(c)
    ensures Ready(c') && c' == c.(input := c'.input)
    ensures c'.input.start == c.input.start && c'.input.end == c.input.end + |comp.data|
    ensures c.input.cap - c.input.end >= DefaultReadSize ==>
      c'.input.cap == c.input.cap && c'.input.sliceLen == c.input.sliceLen
  {
    var s := SubmitReadAsWritten(c).value.0;
    OnRead(s.(input := WriteBooked(s.input, comp.data)), |comp.data|, comp.err).0
  }

  /** While the booking fits, the round as written is the modelled round, so every
      property proved of `ReadRound` holds of the code as written. */
  lemma RoundAsWrittenNoGrowth(c: Connection, comp: KernelRead)
    requires Ready(c) && c.input.cap - c.input.end >= DefaultReadSize
    ensures ReadRoundAsWritten(c, comp) == ReadRound(c, comp)
  {
    RoundIsSubmitFillAck(c, comp);
  }

  /** As written, a round that grows a buffer whose slice length lies at or below the
      read cursor loses the unread input: it reads back as zeros, followed by the new
      bytes. */
  lemma RoundAsWrittenLosesInput(c: Connection, comp: KernelRead)
    requires Ready(c) && c.input.sliceLen <= c.input.start
    requires c.input.cap - c.input.end < DefaultReadSize
    ensures Unread(ReadRoundAsWritten(c, comp).input) == Zeros(Len(c.input)) + comp.data
  {
    ReadRoundAsWrittenZeroes(c, comp.data, comp.err);
  }

  /** Read rounds as written, one per completion, with nothing consumed in between. */
  function RoundsAsWritten(c: Connection, comps: seq<KernelRead>): (c': Connection)
    requires Ready(c)
    ensures Ready(c')
    decreases |comps|
  {
    if comps == [] then c else RoundsAsWritten(ReadRoundAsWritten(c, comps[0]), comps[1..])
  }

  /** Full reads that fit in the buffer never grow it: as written they append every
      received byte and leave the slice length and the capacity alone. */
  lemma {:induction false} FittingRoundsAppend(c: Connection, comps: seq<KernelRead>)
    requires Ready(c)
    requires forall k :: 0 <= k < |comps| ==> |comps[k].data| == DefaultReadSize
    requires c.input.end + |comps| * DefaultReadSize <= c.input.cap
    ensures var c' := RoundsAsWritten(c, comps);
            && Unread(c'.input) == Unread(c.input) + Received(comps)
            && c'.input.start == c.input.start && c'.input.end == c.input.end + |comps| * DefaultReadSize
            && c'.input.cap == c.input.cap && c'.input.sliceLen == c.input.sliceLen
    decreases |comps|
  {
    if comps != [] {
      var c1 := ReadRoundAsWritten(c, comps[0]);
      RoundAsWrittenNoGrowth(c, comps[0]);
      RoundAppends(c, comps[0]);
      FittingRoundsAppend(c1, comps[1..]);
      AppendAssoc(Unread(c.input), comps[0].data, Received(comps[1..]));
    }
  }

  /** As written, a fresh connection whose buffers hold `size` bytes, receiving full reads
      that fill its input exactly and consuming nothing, has every received byte zeroed
      by the next round, which has to grow the buffer; the modelled round keeps them.
      With `init`'s 4096-byte buffers that is the fifth read. */
  lemma FreshConnectionLosesInput(size: nat, comps: seq<KernelRead>, last: KernelRead)
    requires size >= DefaultReadSize && |comps| * DefaultReadSize == size
    requires forall k :: 0 <= k < |comps| ==> |comps[k].data| == DefaultReadSize
    ensures var c' := RoundsAsWritten(WithBuffers(size), comps);
            && Unread(c'.input) == Received(comps)
            && Unread(ReadRoundAsWritten(c', last).input) == Zeros(size) + last.data
            && Unread(ReadRound(c', last).input) == Received(comps) + last.data
  {
    var c0 := WithBuffers(size);
    assert Unread(c0.input) == [];
    FullRoundsThenLoss(c0, comps, last);
  }

  /** Full reads that exactly fill a buffer that has not grown since its read cursor,
      then one more round: the step behind `FreshConnectionLosesInput`. */
  lemma FullRoundsThenLoss(c: Connection, comps: seq<KernelRead>, last: KernelRead)
    requires Ready(c) && c.input.sliceLen <= c.input.start
    requires forall k :: 0 <= k < |comps| ==> |comps[k].data| == DefaultReadSize
    requires c.input.end + |comps| * DefaultReadSize == c.input.cap
    ensures var c' := RoundsAsWritten(c, comps);
            && Unread(c'.input) == Unread(c.input) + Received(comps)
            && Len(c'.input) == Len(c.input) + |comps| * DefaultReadSize
            && Unread(ReadRoundAsWritten(c', last).input) == Zeros(Len(c'.input)) + last.data
            && Unread(ReadRound(c', last).input) == Unread(c'.input) + last.data
  {
    FittingRoundsAppend(c, comps);
    var c' := RoundsAsWritten(c, comps);
    RoundAsWrittenLosesInput(c', last);
    RoundAppends(c', last);
  }

  /** `waitRead(n)`: returns at once when `n` bytes are unread; otherwise submits one read
      per round and waits for its trigger, returning a non-nil error as it is and "EOF"
      when the round left the buffer empty.  The third component counts the
      completions consumed. */
  function WaitRead(c: Connection, n: int, comps: seq<KernelRead>): (r: (Connection, Waited<()>, nat))
    requires Ready(c)
    ensures r.2 <= |comps| && Ready(r.0) && r.0 == c.(input := r.0.input)
    ensures Len(c.input) >= n ==> r == (c, Returned(()), 0)
    decreases |comps|
  {
    if Len(c.input) >= n then (c, Returned(()), 0)
    else if comps == [] then (c, Blocked, 0)
    else
      var c1 := ReadRound(c, comps[0]);
      if comps[0].err.Some? then (c1, Failed(comps[0].err.value), 1)
      else if Len(c1.input) == 0 then (c1, Failed(EOF), 1)
      else
        var rec := WaitRead(c1, n, comps[1..]);
        (rec.0, rec.1, rec.2 + 1)
  }

  /** The input left after a wait is the input before it followed by every byte the
      consumed completions delivered. */
  ghost predicate ReadAccounts(c: Connection, comps: seq<KernelRead>, r: (Connection, Waited<()>, nat))
    requires Buffer.Valid(c.input) && Buffer.Valid(r.0.input) && r.2 <= |comps|
  {
    Unread(r.0.input) == Unread(c.input) + Received(comps[..r.2])
  }

  /** How a wait ends: with `n` bytes unread, blocked after every completion with fewer,
      or failed on the last completion consumed, either with its error or with "EOF"
      after a round that left nothing to read; no earlier completion had an error. */
  ghost predicate ReadEnds(n: int, comps: seq<KernelRead>, r: (Connection, Waited<()>, nat))
    requires r.2 <= |comps|
  {
    && (r.1.Returned? ==> Len(r.0.input) >= n)
    && (r.1.Blocked? ==> r.2 == |comps| && Len(r.0.input) < n)
    && (r.1.Failed? ==>
          && r.2 >= 1
          && (comps[r.2 - 1].err == Some(r.1.error) ||
              (comps[r.2 - 1].err == None && r.1.error == EOF && Len(r.0.input) == 0)))
    && (forall i :: 0 <= i < r.2 - 1 ==> comps[i].err == None)
  }

  /** A round that brought bytes and no error is followed by the rest of the wait. */
  lemma ReadGoesOn(c: Connection, c1: Connection, n: int, comps: seq<KernelRead>, r: (Connection, Waited<()>, nat), rec: (Connection, Waited<()>, nat))
    requires Ready(c) && Len(c.input) < n && comps != []
    requires c1 == ReadRound(c, comps[0]) && comps[0].err.None? && Len(c1.input) != 0
    requires r == WaitRead(c, n, comps)
    requires rec == WaitRead(c1, n, comps[1..])
    ensures r == (rec.0, rec.1, rec.2 + 1)
  {
  }

  /** A round with an error, or one that left nothing to read, ends the wait. */
  lemma ReadStops(c: Connection, c1: Connection, n: int, comps: seq<KernelRead>, r: (Connection, Waited<()>, nat))
    requires Ready(c) && Len(c.input) < n && comps != []
    requires c1 == ReadRound(c, comps[0]) && (comps[0].err.Some? || Len(c1.input) == 0)
    requires r == WaitRead(c, n, comps)
    ensures r.0 == c1 && r.2 == 1
    ensures r.1 == Failed(if comps[0].err.Some? then comps[0].err.value else EOF)
  {
  }

  lemma {:induction false} WaitReadReceives(c: Connection, n: int, comps: seq<KernelRead>)
    requires Ready(c)
    ensures ReadAccounts(c, comps, WaitRead(c, n, comps))
    decreases |comps|
  {
    var r := WaitRead(c, n, comps);
    if Len(c.input) >= n || comps == [] {
      assert comps[..0] == [];
    } else {
      var c1 := ReadRound(c, comps[0]);
      RoundAppends(c, comps[0]);
      if comps[0].err.Some? || Len(c1.input) == 0 {
        ReadStops(c, c1, n, comps, r);
        ReceivedShift(comps, 0, Unread(c.input), Unread(r.0.input));
      } else {
        var rec := WaitRead(c1, n, comps[1..]);
        WaitReadReceives(c1, n, comps[1..]);
        ReadGoesOn(c, c1, n, comps, r, rec);
        ReadAccountsShift(c, c1, comps, rec);
      }
    }
  }

  /** Accounting over the later completions, from a connection whose input is the old
      input followed by the first completion's bytes, is accounting over all of them. */
  lemma ReadAccountsShift(c: Connection, c1: Connection, comps: seq<KernelRead>, rec: (Connection, Waited<()>, nat))
    requires Buffer.Valid(c.input) && Buffer.Valid(c1.input) && Buffer.Valid(rec.0.input)
    requires comps != [] && rec.2 <= |comps| - 1
    requires Unread(c1.input) == Unread(c.input) + comps[0].data
    requires ReadAccounts(c1, comps[1..], rec)
    ensures ReadAccounts(c, comps, (rec.0, rec.1, rec.2 + 1))
  {
    ReceivedShift(comps, rec.2, Unread(c.input), Unread(rec.0.input));
  }

  lemma {:induction false} WaitReadOutcome(c: Connection, n: int, comps: seq<KernelRead>)
    requires Ready(c)
    ensures ReadEnds(n, comps, WaitRead(c, n, comps))
    decreases |comps|
  {
    var r := WaitRead(c, n, comps);
    if Len(c.input) < n && comps != [] {
      var c1 := ReadRound(c, comps[0]);
      if comps[0].err.Some? || Len(c1.input) == 0 {
        ReadStops(c, c1, n, comps, r);
      } else {
        var rec := WaitRead(c1, n, comps[1..]);
        WaitReadOutcome(c1, n, comps[1..]);
        ReadGoesOn(c, c1, n, comps, r, rec);
        ReadEndsShift(n, comps, rec);
      }
    }
  }

  /** A wait over the later completions, after a first one without error, ends the same
      way over all of them. */
  lemma ReadEndsShift(n: int, comps: seq<KernelRead>, rec: (Connection, Waited<()>, nat))
    requires comps != [] && comps[0].err.None? && rec.2 <= |comps| - 1
    requires ReadEnds(n, comps[1..], rec)
    ensures ReadEnds(n, comps, (rec.0, rec.1, rec.2 + 1))
  {
    forall i | 0 <= i < rec.2
      ensures comps[i].err == None
    {
      if i > 0 {
        assert comps[i] == comps[1..][i - 1];
      }
    }
  }

  /** The bytes of the first completion followed by those of the next `k` are those of
      the first `k + 1`. */
  lemma ReceivedShift(comps: seq<KernelRead>, k: nat, u: seq<byte>, x: seq<byte>)
    requires k < |comps|
    requires x == (u + comps[0].data) + Received(comps[1..][..k])
    ensures x == u + Received(comps[..k + 1])
  {
    ReceivedStep(comps, k);
    AppendAssoc(u, comps[0].data, Received(comps[1..][..k]));
  }

  /** `ReadBytes(n)`: reads straight from the buffer when `n` bytes are there; otherwise
      waits for them first and returns the wait's error, if any. */
  function ReadBytes(c: Connection, n: nat, comps: seq<KernelRead>): (r: (Connection, Waited<seq<byte>>, nat))
    requires Ready(c)
    requires c.readTimeout == 0 || Len(c.input) >= n
    ensures r.2 <= |comps| && Ready(r.0) && r.0 == c.(input := r.0.input)
    ensures Len(c.input) >= n ==> r.2 == 0 && r.1 == Returned(Unread(c.input)[..n])
    ensures r.1.Returned? ==> |r.1.value| == n
    ensures r.1.Failed? ==> WaitRead(c, n, comps).1 == Failed(r.1.error)
    ensures r.1.Blocked? ==> r.2 == |comps|
  {
    if Len(c.input) >= n then
      var p := Buffer.ReadBytes(c.input, n);
      (c.(input := p.0), Returned(p.1.value), 0)
    else
      var w := WaitRead(c, n, comps);
      WaitReadOutcome(c, n, comps);
      match w.1
      case Returned(_) =>
        var p := Buffer.ReadBytes(w.0.input, n);
        (w.0.(input := p.0), Returned(p.1.value), w.2)
      case Failed(e) => (w.0, Failed(e), w.2)
      case Blocked => (w.0, Blocked, w.2)
  }

  /** The bytes `ReadBytes` returns, followed by what stays unread, are the bytes unread
      before the call followed by every byte the consumed completions delivered. */
  lemma ReadBytesReceives(c: Connection, n: nat, comps: seq<KernelRead>)
    requires Ready(c)
    requires c.readTimeout == 0 || Len(c.input) >= n
    ensures var r := ReadBytes(c, n, comps);
            r.1.Returned? ==> r.1.value + Unread(r.0.input) == Unread(c.input) + Received(comps[..r.2])
  {
    if Len(c.input) >= n {
      TakeSplits(c.input, n);
      assert comps[..0] == [];
    } else {
      var w := WaitRead(c, n, comps);
      WaitReadReceives(c, n, comps);
      WaitReadOutcome(c, n, comps);
      if w.1.Returned? {
        TakeSplits(w.0.input, n);
      }
    }
  }

  /** The bytes a successful buffer read returns, followed by what it leaves unread, are
      the bytes unread before it. */
  lemma TakeSplits(b: BytesBuffer, n: nat)
    requires Buffer.Valid(b) && Len(b) >= n
    ensures var p := Buffer.ReadBytes(b, n);
            p.1.Ok? && p.1.value + Unread(p.0) == Unread(b)
  {
    var u := Unread(b);
    assert u == u[..n] + u[n..];
  }

  /** Go's `string(bytes)`, one character per byte. */
  function AsString(bs: seq<byte>): (s: string)
    ensures |s| == |bs| && forall i :: 0 <= i < |bs| ==> s[i] as int == bs[i] as int
  {
    seq(|bs|, i requires 0 <= i < |bs| => (bs[i] as int) as char)
  }

  /** `ReadString(n)`: `ReadBytes(n)` with the bytes returned as a string.  The input
      buffer's own `ReadString(n)` is taken to read and consume `n` bytes as a string. */
  function ReadString(c: Connection, n: nat, comps: seq<KernelRead>): (r: (Connection, Waited<string>, nat))
    requires Ready(c)
    requires c.readTimeout == 0 || Len(c.input) >= n
    ensures var b := ReadBytes(c, n, comps);
            && (r.0, r.2) == (b.0, b.2)
            && (b.1.Returned? <==> r.1.Returned?)
            && (b.1.Returned? ==> r.1.value == AsString(b.1.value))
            && (!b.1.Returned? ==> r.1 == if b.1.Failed? then Failed(b.1.error) else Blocked)
  {
    var (c', w, used) := ReadBytes(c, n, comps);
    match w
    case Returned(bs) => (c', Returned(AsString(bs)), used)
    case Failed(e) => (c', Failed(e), used)
    case Blocked => (c', Blocked, used)
  }

  /** The first index of `d` in `data`, searching from `from`. */
  function IndexOf(data: seq<byte>, d: byte, from: nat): (r: Option<nat>)
    requires from <= |data|
    ensures r.Some? ==> from <= r.value < |data|
    decreases |data| - from
  {
    if from == |data| then None
    else if data[from] == d then Some(from)
    else IndexOf(data, d, from + 1)
  }

  /** The search finds the first `d` at or after `from`, and nothing when there is none. */
  lemma {:induction false} IndexOfFirst(data: seq<byte>, d: byte, from: nat)
    requires from <= |data|
    ensures var r := IndexOf(data, d, from);
            && (r.Some? ==> data[r.value] == d && forall j :: from <= j < r.value ==> data[j] != d)
            && (r.None? ==> forall j :: from <= j < |data| ==> data[j] != d)
    decreases |data| - from
  {
    if from < |data| && data[from] != d {
      IndexOfFirst(data, d, from + 1);
    }
  }

  /** The position of the first delimiter in the unread input, if any. */
  function Delimiter(c: Connection, delim: byte): (r: Option<nat>)
    requires Ready(c)
    ensures r.Some? ==> r.value < Len(c.input)
  {
    if Len(c.input) > 0 then IndexOf(SeekAll(c.input), delim, 0) else None
  }

  /** The delimiter position is the first occurrence in the unread input, and there is
      one exactly when the unread input holds the delimiter. */
  lemma DelimiterFirst(c: Connection, delim: byte)
    requires Ready(c)
    ensures var r := Delimiter(c, delim);
            && (r.Some? ==> Unread(c.input)[r.value] == delim)
            && (r.Some? ==> forall j :: 0 <= j < r.value ==> Unread(c.input)[j] != delim)
            && (r.None? <==> delim !in Unread(c.input))
  {
    if Len(c.input) > 0 {
      IndexOfFirst(SeekAll(c.input), delim, 0);
    }
  }

  /** `waitReadUntil(delim)`: when the unread data holds the delimiter, consumes up to and
      including its first occurrence and returns those bytes; otherwise runs one read
      round, with the same error and EOF handling as `waitRead`, and looks again. */
  function WaitReadUntil(c: Connection, delim: byte, comps: seq<KernelRead>): (r: (Connection, Waited<seq<byte>>, nat))
    requires Ready(c)
    ensures r.2 <= |comps| && Ready(r.0) && r.0 == c.(input := r.0.input)
    ensures r.1.Blocked? ==> r.2 == |comps|
    decreases |comps|
  {
    var found := Delimiter(c, delim);
    if found.Some? then
      var i := found.value;
      (c.(input := SeekAck(c.input, i + 1).0), Returned(SeekAll(c.input)[..i + 1]), 0)
    else if comps == [] then (c, Blocked, 0)
    else
      var c1 := ReadRound(c, comps[0]);
      if comps[0].err.Some? then (c1, Failed(comps[0].err.value), 1)
      else if Len(c1.input) == 0 then (c1, Failed(EOF), 1)
      else
        var rec := WaitReadUntil(c1, delim, comps[1..]);
        (rec.0, rec.1, rec.2 + 1)
  }

  /** How `waitReadUntil` ends: the line returned ends with the delimiter and holds no
      earlier one; a failure reports the last completion's error, or "EOF" after a round
      that left nothing to read. */
  ghost predicate UntilEnds(delim: byte, comps: seq<KernelRead>, r: (Connection, Waited<seq<byte>>, nat))
    requires r.2 <= |comps|
  {
    && (r.1.Returned? ==>
          && |r.1.value| > 0 && r.1.value[|r.1.value| - 1] == delim
          && (forall j :: 0 <= j < |r.1.value| - 1 ==> r.1.value[j] != delim))
    && (r.1.Failed? ==>
          && r.2 >= 1
          && (comps[r.2 - 1].err == Some(r.1.error) ||
              (comps[r.2 - 1].err == None && r.1.error == EOF && Len(r.0.input) == 0)))
  }

  /** Without a delimiter, a round that brought bytes and no error is followed by the
      rest of the wait. */
  lemma UntilGoesOn(c: Connection, c1: Connection, delim: byte, comps: seq<KernelRead>, r: (Connection, Waited<seq<byte>>, nat), rec: (Connection, Waited<seq<byte>>, nat))
    requires Ready(c) && Delimiter(c, delim).None? && comps != []
    requires c1 == ReadRound(c, comps[0]) && comps[0].err.None? && Len(c1.input) != 0
    requires r == WaitReadUntil(c, delim, comps)
    requires rec == WaitReadUntil(c1, delim, comps[1..])
    ensures r == (rec.0, rec.1, rec.2 + 1)
  {
  }

  /** Without a delimiter, a round with an error, or one that left nothing to read, ends
      the wait. */
  lemma UntilStops(c: Connection, c1: Connection, delim: byte, comps: seq<KernelRead>, r: (Connection, Waited<seq<byte>>, nat))
    requires Ready(c) && Delimiter(c, delim).None? && comps != []
    requires c1 == ReadRound(c, comps[0]) && (comps[0].err.Some? || Len(c1.input) == 0)
    requires r == WaitReadUntil(c, delim, comps)
    ensures r.0 == c1 && r.2 == 1
    ensures r.1 == Failed(if comps[0].err.Some? then comps[0].err.value else EOF)
  {
  }

  /** With a delimiter unread, the call consumes the line up to and including it. */
  lemma UntilTakesLine(c: Connection, delim: byte, comps: seq<KernelRead>, r: (Connection, Waited<seq<byte>>, nat))
    requires Ready(c) && Delimiter(c, delim).Some?
    requires r == WaitReadUntil(c, delim, comps)
    ensures var i := Delimiter(c, delim).value;
            r == (c.(input := SeekAck(c.input, i + 1).0), Returned(Unread(c.input)[..i + 1]), 0)
  {
  }

  lemma {:induction false} WaitReadUntilOutcome(c: Connection, delim: byte, comps: seq<KernelRead>)
    requires Ready(c)
    ensures UntilEnds(delim, comps, WaitReadUntil(c, delim, comps))
    decreases |comps|
  {
    var r := WaitReadUntil(c, delim, comps);
    if Delimiter(c, delim).Some? {
      UntilTakesLine(c, delim, comps, r);
      LineEndsAtDelimiter(c, delim);
    } else if comps != [] {
      var c1 := ReadRound(c, comps[0]);
      if comps[0].err.Some? || Len(c1.input) == 0 {
        UntilStops(c, c1, delim, comps, r);
      } else {
        var rec := WaitReadUntil(c1, delim, comps[1..]);
        WaitReadUntilOutcome(c1, delim, comps[1..]);
        UntilGoesOn(c, c1, delim, comps, r, rec);
        UntilEndsShift(delim, comps, rec);
      }
    }
  }

  /** A wait over the later completions ends the same way over all of them. */
  lemma UntilEndsShift(delim: byte, comps: seq<KernelRead>, rec: (Connection, Waited<seq<byte>>, nat))
    requires comps != [] && rec.2 <= |comps| - 1
    requires UntilEnds(delim, comps[1..], rec)
    ensures UntilEnds(delim, comps, (rec.0, rec.1, rec.2 + 1))
  {
    if rec.1.Failed? {
      assert comps[1..][rec.2 - 1] == comps[rec.2];
    }
  }

  /** The line up to and including the first delimiter ends with it and holds no earlier
      one. */
  lemma LineEndsAtDelimiter(c: Connection, delim: byte)
    requires Ready(c) && Delimiter(c, delim).Some?
    ensures var i := Delimiter(c, delim).value;
            var line := Unread(c.input)[..i + 1];
            && line[i] == delim
            && forall j :: 0 <= j < i ==> line[j] != delim
  {
    DelimiterFirst(c, delim);
  }

  /** A delimiter already unread is returned at once, without waiting for any completion. */
  lemma UntilAtOnce(c: Connection, delim: byte, comps: seq<KernelRead>)
    requires Ready(c) && delim in Unread(c.input)
    ensures WaitReadUntil(c, delim, comps).1.Returned?
    ensures WaitReadUntil(c, delim, comps).2 == 0
  {
    DelimiterFirst(c, delim);
  }

  /** The bytes a read call hands back: none unless it returned. */
  function Taken(w: Waited<seq<byte>>): seq<byte> {
    if w.Returned? then w.value else []
  }

  /** The bytes handed back followed by the input left over are the input before the
      call followed by every byte the consumed completions delivered: nothing is lost or
      duplicated. */
  ghost predicate Accounts(c: Connection, r: (Connection, Waited<seq<byte>>, nat), comps: seq<KernelRead>)
    requires Buffer.Valid(c.input) && Buffer.Valid(r.0.input) && r.2 <= |comps|
  {
    Taken(r.1) + Unread(r.0.input) == Unread(c.input) + Received(comps[..r.2])
  }

  lemma {:induction false} WaitReadUntilReceives(c: Connection, delim: byte, comps: seq<KernelRead>)
    requires Ready(c)
    ensures Accounts(c, WaitReadUntil(c, delim, comps), comps)
    decreases |comps|
  {
    var r := WaitReadUntil(c, delim, comps);
    if Delimiter(c, delim).Some? {
      UntilTakesLine(c, delim, comps, r);
      LineSplitsInput(c, delim);
      assert comps[..0] == [];
    } else if comps == [] {
      assert comps[..0] == [];
    } else {
      var c1 := ReadRound(c, comps[0]);
      RoundAppends(c, comps[0]);
      if comps[0].err.Some? || Len(c1.input) == 0 {
        UntilStops(c, c1, delim, comps, r);
        ReceivedShift(comps, 0, Unread(c.input), Taken(r.1) + Unread(r.0.input));
      } else {
        var rec := WaitReadUntil(c1, delim, comps[1..]);
        WaitReadUntilReceives(c1, delim, comps[1..]);
        UntilGoesOn(c, c1, delim, comps, r, rec);
        AccountsShift(c, c1, comps, rec);
      }
    }
  }

  /** Accounting over the later completions, from a connection whose input is the old
      input followed by the first completion's bytes, is accounting over all of them. */
  lemma AccountsShift(c: Connection, c1: Connection, comps: seq<KernelRead>, rec: (Connection, Waited<seq<byte>>, nat))
    requires Buffer.Valid(c.input) && Buffer.Valid(c1.input) && Buffer.Valid(rec.0.input)
    requires comps != [] && rec.2 <= |comps| - 1
    requires Unread(c1.input) == Unread(c.input) + comps[0].data
    requires Accounts(c1, rec, comps[1..])
    ensures Accounts(c, (rec.0, rec.1, rec.2 + 1), comps)
  {
    ReceivedShift(comps, rec.2, Unread(c.input), Taken(rec.1) + Unread(rec.0.input));
  }

  /** The line up to and including the first delimiter, followed by what consuming it
      leaves, is the whole unread input. */
  lemma LineSplitsInput(c: Connection, delim: byte)
    requires Ready(c) && Delimiter(c, delim).Some?
    ensures var i := Delimiter(c, delim).value;
            Unread(c.input)[..i + 1] + Unread(SeekAck(c.input, i + 1).0) == Unread(c.input)
  {
    var data := Unread(c.input);
    var i := Delimiter(c, delim).value;
    assert data == data[..i + 1] + data[i + 1..];
  }

  lemma AppendAssoc(a: seq<byte>, b: seq<byte>, c: seq<byte>)
    ensures (a + b) + c == a + (b + c)
  {
  }

  /** `a` is what is left of `b` after some bytes were taken off its front. */
  ghost predicate IsSuffix(a: seq<byte>, b: seq<byte>) {
    |a| <= |b| && a == b[|b| - |a|..]
  }

  /** One iteration of a flush, written as its net effect on the output buffer: the
      completion's count of sent bytes is consumed from the front of the output, and a
      count beyond the pending bytes changes nothing.  `RoundIsSubmitAck` proves it equal
      to `submitWrite` followed by `onWrite`. */
  function WriteRound(c: Connection, comp: WriteCompletion): (c': Connection)
    requires Conn.Valid(c)
    ensures Conn.Valid(c') && c' == c.(output := c'.output)
    ensures comp.n <= Len(c.output) ==> Len(c'.output) == Len(c.output) - comp.n
    ensures comp.n > Len(c.output) ==> c' == c
  {
    if comp.n > Len(c.output) then c else c.(output := c.output.(start := c.output.start + comp.n))
  }

  lemma RoundIsSubmitAck(c: Connection, comp: WriteCompletion)
    requires Conn.Valid(c)
    ensures WriteRound(c, comp) == OnWrite(SubmitWrite(c).0, comp.n, comp.err).0
  {
  }

  /** A write round leaves a suffix of the pending output. */
  lemma WriteRoundSuffix(c: Connection, comp: WriteCompletion)
    requires Conn.Valid(c)
    ensures IsSuffix(Unread(WriteRound(c, comp).output), Unread(c.output))
  {
    RoundIsSubmitAck(c, comp);
  }

  /** `waitFlush()`: returns at once when nothing is pending; otherwise submits the whole
      output, waits for the write trigger, and repeats until the output is empty or an
      error arrives. */
  function WaitFlush(c: Connection, comps: seq<WriteCompletion>): (r: (Connection, Waited<()>, nat))
    requires Conn.Valid(c)
    ensures r.2 <= |comps| && Conn.Valid(r.0) && r.0 == c.(output := r.0.output)
    ensures Len(c.output) == 0 ==> r == (c, Returned(()), 0)
    decreases |comps|
  {
    if Len(c.output) == 0 then (c, Returned(()), 0)
    else if comps == [] then (c, Blocked, 0)
    else
      var c2 := WriteRound(c, comps[0]);
      if comps[0].err.Some? then (c2, Failed(comps[0].err.value), 1)
      else
        var rec := WaitFlush(c2, comps[1..]);
        (rec.0, rec.1, rec.2 + 1)
  }

  /** How a flush ends: with the output empty, with the error of the last completion
      consumed, or blocked with bytes still pending after every completion; no earlier
      completion had an error. */
  ghost predicate FlushEnds(comps: seq<WriteCompletion>, r: (Connection, Waited<()>, nat))
    requires r.2 <= |comps|
  {
    && (r.1.Returned? ==> Len(r.0.output) == 0)
    && (r.1.Failed? ==> r.2 >= 1 && comps[r.2 - 1].err == Some(r.1.error))
    && (r.1.Blocked? ==> r.2 == |comps| && Len(r.0.output) > 0)
    && (forall i :: 0 <= i < r.2 - 1 ==> comps[i].err == None)
  }

  /** A write round without error is followed by the rest of the flush. */
  lemma FlushGoesOn(c: Connection, comps: seq<WriteCompletion>, r: (Connection, Waited<()>, nat), rec: (Connection, Waited<()>, nat))
    requires Conn.Valid(c) && Len(c.output) > 0 && comps != [] && comps[0].err.None?
    requires r == WaitFlush(c, comps)
    requires rec == WaitFlush(WriteRound(c, comps[0]), comps[1..])
    ensures r == (rec.0, rec.1, rec.2 + 1)
  {
  }

  /** A write round with an error ends the flush. */
  lemma FlushStops(c: Connection, comps: seq<WriteCompletion>, r: (Connection, Waited<()>, nat))
    requires Conn.Valid(c) && Len(c.output) > 0 && comps != [] && comps[0].err.Some?
    requires r == WaitFlush(c, comps)
    ensures r == (WriteRound(c, comps[0]), Failed(comps[0].err.value), 1)
  {
  }

  lemma {:induction false} WaitFlushOutcome(c: Connection, comps: seq<WriteCompletion>)
    requires Conn.Valid(c)
    ensures FlushEnds(comps, WaitFlush(c, comps))
    decreases |comps|
  {
    var r := WaitFlush(c, comps);
    if Len(c.output) > 0 && comps != [] {
      if comps[0].err.Some? {
        FlushStops(c, comps, r);
      } else {
        var c2 := WriteRound(c, comps[0]);
        var rec := WaitFlush(c2, comps[1..]);
        WaitFlushOutcome(c2, comps[1..]);
        FlushGoesOn(c, comps, r, rec);
        forall i | 0 <= i < rec.2
          ensures comps[i].err == None
        {
          if i > 0 {
            assert comps[i] == comps[1..][i - 1];
          }
        }
      }
    }
  }

  /** A flush only ever sends bytes from the front of the output. */
  lemma {:induction false} WaitFlushSuffix(c: Connection, comps: seq<WriteCompletion>)
    requires Conn.Valid(c)
    ensures IsSuffix(Unread(WaitFlush(c, comps).0.output), Unread(c.output))
    decreases |comps|
  {
    var r := WaitFlush(c, comps);
    if Len(c.output) > 0 && comps != [] {
      var c2 := WriteRound(c, comps[0]);
      WriteRoundSuffix(c, comps[0]);
      if comps[0].err.Some? {
        FlushStops(c, comps, r);
      } else {
        var rec := WaitFlush(c2, comps[1..]);
        WaitFlushSuffix(c2, comps[1..]);
        FlushGoesOn(c, comps, r, rec);
        SuffixTrans(Unread(rec.0.output), Unread(c2.output), Unread(c.output));
      }
    }
  }

  lemma SuffixTrans(a: seq<byte>, b: seq<byte>, c: seq<byte>)
    requires IsSuffix(a, b) && IsSuffix(b, c)
    ensures IsSuffix(a, c)
  {
    assert c[|c| - |b|..][|b| - |a|..] == c[|c| - |a|..];
  }

  /** A write the kernel completes in full, without error, finishes the flush in one
      round. */
  lemma FullWriteFlushes(c: Connection, rest: seq<WriteCompletion>)
    requires Conn.Valid(c) && Len(c.output) > 0
    ensures WaitFlush(c, [WriteCompletion(Len(c.output), None)] + rest).1 == Returned(())
    ensures WaitFlush(c, [WriteCompletion(Len(c.output), None)] + rest).2 == 1
  {
    var comps := [WriteCompletion(Len(c.output), None)] + rest;
    assert comps[0] == WriteCompletion(Len(c.output), None);
  }

  /** `Flush()` without a write timeout is `waitFlush`. */
  function Flush(c: Connection, comps: seq<WriteCompletion>): (r: (Connection, Waited<()>, nat))
    requires Conn.Valid(c) && c.writeTimeout == 0
    ensures r.1.Returned? ==> Len(r.0.output) == 0
    ensures Len(c.output) == 0 ==> r == (c, Returned(()), 0)
  {
    WaitFlushOutcome(c, comps);
    WaitFlush(c, comps)
  }
}
