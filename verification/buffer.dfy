/** The growable byte buffer with a read cursor (`start`) and a write cursor (`end`).

    The Go value holds a slice whose backing array has `cap` bytes and whose *length*
    is set only when the array is (re)allocated; reads and bookings slice past that
    length up to the capacity.  The model keeps the whole backing array in `mem` and
    the slice length in `sliceLen`, because the growth copy depends on the latter. */
module Buffer {
  import opened Base

  datatype BytesBuffer = BytesBuffer(
    mem: seq<byte>,    // the backing array; every byte up to `cap`
    sliceLen: nat,     // len(buffer): 0 after creation, `end` after each growth
    start: int,        // read cursor
    end: int,          // write cursor
    cap: int)

  /** The cursor invariant `0 <= start <= end <= cap`, and the array has `cap` bytes. */
  ghost predicate Valid(b: BytesBuffer) {
    && 0 <= b.start <= b.end <= b.cap
    && |b.mem| == b.cap
    && b.sliceLen <= b.cap
  }

  /** Number of unread bytes. */
  function Len(b: BytesBuffer): int {
    b.end - b.start
  }

  /** The unread bytes `[start, end)`. */
  function Unread(b: BytesBuffer): (u: seq<byte>)
    requires Valid(b)
    ensures |u| == Len(b)
  {
    b.mem[b.start..b.end]
  }

  /** `newBytesBuffer(cap)`: an empty buffer whose slice has length 0 and capacity `cap`. */
  function NewBytesBuffer(cap: nat): (b: BytesBuffer)
    ensures Valid(b)
    ensures b.start == 0 && b.end == 0 && b.cap == cap
    ensures Len(b) == 0 && Unread(b) == []
    ensures b.sliceLen == 0
  {
    BytesBuffer(Zeros(cap), 0, 0, 0, cap)
  }

  /** `Next(n)`: returns the next `n` unread bytes and consumes them.  Asking for more
      than `Len` is an error that changes nothing; a negative `n` makes the slice
      expression panic. */
  function Next(b: BytesBuffer, n: int): (r: (BytesBuffer, Result<seq<byte>>))
    requires Valid(b)
    ensures n > Len(b) ==> r.0 == b && r.1.Err?
    ensures n < 0 ==> r.1.Fault?
    ensures 0 <= n <= Len(b) ==>
      && r.1 == Ok(Unread(b)[..n])
      && r.0 == b.(start := b.start + n)
      && Len(r.0) == Len(b) - n
      && Unread(r.0) == Unread(b)[n..]
    ensures Valid(r.0)
  {
    if n > b.end - b.start then
      (b, Err(Error("not enough bytes in buffer")))
    else if n < 0 then
      (b, Fault)
    else
      SliceSplit(b.mem, b.start, b.end, n);
      (b.(start := b.start + n), Ok(b.mem[b.start..b.start + n]))
  }

  /** The first `n` bytes of a slice and the rest are the two adjacent sub-slices. */
  lemma SliceSplit(s: seq<byte>, i: int, j: int, n: int)
    requires 0 <= i && 0 <= n && i + n <= j <= |s|
    ensures s[i..j][..n] == s[i..i + n]
    ensures s[i..j][n..] == s[i + n..j]
  {
    assert forall k :: 0 <= k < n ==> s[i..j][..n][k] == s[i + k];
    assert forall k :: 0 <= k < j - i - n ==> s[i..j][n..][k] == s[i + n + k];
  }

  /** `BookAck(n)`: publishes `n` booked bytes by advancing `end`, or fails without any
      change when fewer than `n` bytes are left before `cap`. */
  function BookAck(b: BytesBuffer, n: int): (r: (BytesBuffer, Option<Error>))
    requires Valid(b)
    ensures b.cap - b.end < n ==> r.0 == b && r.1.Some?
    ensures b.cap - b.end >= n ==>
      && r.1 == None
      && r.0 == b.(end := b.end + n)
      && Len(r.0) == Len(b) + n
    ensures n >= 0 ==> Valid(r.0)
    ensures n >= 0 ==> Unread(b) <= Unread(r.0)
  {
    if b.cap - b.end < n then
      (b, Some(Error("not enough space in buffer")))
    else
      (b.(end := b.end + n), None)
  }

  /** The array Go's growth branch allocates: `make([]byte, end, 2*cap)` followed by
      `copy(newBuffer, buffer)`, which copies `min(end, len(buffer))` bytes. */
  function GrownAsWritten(b: BytesBuffer): (mem': seq<byte>)
    requires Valid(b)
    ensures |mem'| == 2 * b.cap
    ensures forall i :: 0 <= i < |mem'| ==>
      mem'[i] == (if i < b.end && i < b.sliceLen then b.mem[i] else 0)
  {
    var copied := if b.end < b.sliceLen then b.end else b.sliceLen;
    b.mem[..copied] + Zeros(2 * b.cap - copied)
  }

  /** `Book(n)` exactly as written: when fewer than `n` bytes remain, doubles `cap` once
      and re-allocates with the copy above; the booked window is `[end, end+n)` of the
      (possibly new) array, and slicing it panics when it does not fit. */
  function BookAsWritten(b: BytesBuffer, n: int): (r: Result<BytesBuffer>)
    requires Valid(b)
    ensures !r.Err?
    ensures r.Ok? ==> Valid(r.value) && r.value.start == b.start && r.value.end == b.end
    ensures r.Ok? ==> b.end + n <= r.value.cap
    ensures r.Ok? <==> 0 <= n && (n <= b.cap - b.end || n <= 2 * b.cap - b.end)
    ensures r.Ok? && b.cap - b.end >= n ==> r.value == b
    ensures r.Ok? && b.cap - b.end < n ==>
      && r.value.cap == 2 * b.cap
      && r.value.sliceLen == b.end
      && (forall i :: 0 <= i < r.value.cap ==>
            r.value.mem[i] == (if i < b.end && i < b.sliceLen then b.mem[i] else 0))
  {
    var b' := if b.cap - b.end < n
      then BytesBuffer(GrownAsWritten(b), b.end, b.start, b.end, 2 * b.cap)
      else b;
    if n < 0 || b'.end + n > b'.cap then Fault else Ok(b')
  }

  /** `Book(n)` with the evidently intended growth copy `copy(newBuffer, buffer[:end])`:
      every written byte is carried over, so the unread bytes never change. */
  function Book(b: BytesBuffer, n: int): (r: Result<BytesBuffer>)
    requires Valid(b)
    ensures !r.Err?
    ensures r.Ok? <==> 0 <= n && (n <= b.cap - b.end || n <= 2 * b.cap - b.end)
    ensures r.Ok? ==>
      && Valid(r.value)
      && r.value.start == b.start && r.value.end == b.end
      && b.end + n <= r.value.cap
      && r.value.mem[..b.end] == b.mem[..b.end]
      && Unread(r.value) == Unread(b)
    ensures r.Ok? && b.cap - b.end >= n ==> r.value == b
    ensures r.Ok? && b.cap - b.end < n ==> r.value.cap == 2 * b.cap
  {
    var b' := if b.cap - b.end < n
      then BytesBuffer(b.mem[..b.end] + Zeros(2 * b.cap - b.end), b.end, b.start, b.end, 2 * b.cap)
      else b;
    if n < 0 || b'.end + n > b'.cap then Fault else Ok(b')
  }

  /** The caller (or the kernel) writing `data` into the window a `Book` returned. */
  function WriteBooked(b: BytesBuffer, data: seq<byte>): (r: BytesBuffer)
    requires Valid(b) && b.end + |data| <= b.cap
    ensures Valid(r)
    ensures r.start == b.start && r.end == b.end && r.cap == b.cap
    ensures Unread(r) == Unread(b)
    ensures r.mem[b.end..b.end + |data|] == data
  {
    b.(mem := b.mem[..b.end] + data + b.mem[b.end + |data|..])
  }

  // The operations below are called on the connection's buffers but are defined in no
  // file of this model; each follows the reader contract: `Seek` peeks, `SeekAck`
  // consumes, `SeekAll` peeks everything, `ReadBytes` reads and consumes.

  /** Peeks at the next `n` unread bytes without consuming them. */
  function Seek(b: BytesBuffer, n: nat): (r: Result<seq<byte>>)
    requires Valid(b)
    ensures r.Ok? <==> n <= Len(b)
    ensures r.Ok? ==> r.value == Unread(b)[..n]
    ensures !r.Fault?
  {
    if n > Len(b) then Err(Error("not enough bytes in buffer")) else Ok(b.mem[b.start..b.start + n])
  }

  /** Consumes `n` unread bytes; asking for more than `Len` fails and changes nothing. */
  function SeekAck(b: BytesBuffer, n: nat): (r: (BytesBuffer, Option<Error>))
    requires Valid(b)
    ensures Valid(r.0)
    ensures r.1 == None <==> n <= Len(b)
    ensures r.1 == None ==> Unread(r.0) == Unread(b)[n..] && r.0.end == b.end
    ensures r.1 != None ==> r.0 == b
  {
    if n > Len(b) then (b, Some(Error("not enough bytes in buffer"))) else (b.(start := b.start + n), None)
  }

  /** Peeks at every unread byte. */
  function SeekAll(b: BytesBuffer): (r: seq<byte>)
    requires Valid(b)
    ensures |r| == Len(b) && r == Unread(b)
  {
    b.mem[b.start..b.end]
  }

  /** Reads and consumes exactly `n` bytes, or fails without consuming anything. */
  function ReadBytes(b: BytesBuffer, n: nat): (r: (BytesBuffer, Result<seq<byte>>))
    requires Valid(b)
    ensures Valid(r.0)
    ensures r.1.Ok? <==> n <= Len(b)
    ensures r.1.Ok? ==> r.1.value == Unread(b)[..n] && Unread(r.0) == Unread(b)[n..]
    ensures !r.1.Ok? ==> r.0 == b
  {
    Next(b, n)
  }

  // ---------------------------------------------------------------------------
  // Properties relating several calls

  /** Book + fill + BookAck appends exactly the filled bytes to the unread data, through
      a growth or not. */
  lemma BookFillAck(b: BytesBuffer, data: seq<byte>)
    requires Valid(b)
    requires Book(b, |data|).Ok?
    ensures var b1 := Book(b, |data|).value;
            var b2 := WriteBooked(b1, data);
            var r := BookAck(b2, |data|);
            r.1 == None && Valid(r.0) && Unread(r.0) == Unread(b) + data
  {
    var b1 := Book(b, |data|).value;
    var b2 := WriteBooked(b1, data);
    var r := BookAck(b2, |data|);
    assert Unread(r.0) == b2.mem[b.start..b.end + |data|];
    assert b2.mem[b.start..b.end] == Unread(b);
    assert b2.mem[b.end..b.end + |data|] == data;
    assert b2.mem[b.start..b.end + |data|] == b2.mem[b.start..b.end] + b2.mem[b.end..b.end + |data|];
  }

  /** On an empty buffer, Book + fill + BookAck + Next returns exactly the filled bytes. */
  lemma BookFillAckNext(b: BytesBuffer, data: seq<byte>)
    requires Valid(b) && Len(b) == 0
    requires Book(b, |data|).Ok?
    ensures var b2 := WriteBooked(Book(b, |data|).value, data);
            Next(BookAck(b2, |data|).0, |data|).1 == Ok(data)
  {
    BookFillAck(b, data);
  }

  /** The same round trip holds for the code as written as long as `Book` does not grow. */
  lemma BookFillAckNoGrowth(b: BytesBuffer, data: seq<byte>)
    requires Valid(b) && |data| <= b.cap - b.end
    ensures BookAsWritten(b, |data|) == Ok(b)
    ensures var b2 := WriteBooked(b, data);
            var r := BookAck(b2, |data|);
            r.1 == None && Unread(r.0) == Unread(b) + data
  {
    var b2 := WriteBooked(b, data);
    var r := BookAck(b2, |data|);
    assert b2.mem[b.start..b.end + |data|] == b2.mem[b.start..b.end] + b2.mem[b.end..b.end + |data|];
  }

  /** Filling a fresh buffer completely and acknowledging it leaves the bytes unread in
      an array whose slice length is still 0. */
  lemma FillFreshBuffer(data: seq<byte>)
    ensures BookAck(WriteBooked(NewBytesBuffer(|data|), data), |data|).0
            == BytesBuffer(data, 0, 0, |data|, |data|)
  {
    var b0 := NewBytesBuffer(|data|);
    assert b0.mem[..0] + data + b0.mem[|data|..] == data;
  }

  /** The first growth after creation as written zeroes every unread byte: the fresh slice
      has length 0, so nothing is copied into the new array. */
  lemma FirstGrowthZeroesUnread(b: BytesBuffer, n: int)
    requires Valid(b) && b.sliceLen == 0
    requires b.cap - b.end < n <= 2 * b.cap - b.end
    ensures BookAsWritten(b, n).Ok?
    ensures forall i :: 0 <= i < Len(b) ==> Unread(BookAsWritten(b, n).value)[i] == 0
  {
  }

  /** The loss end to end: fill a fresh buffer completely (first byte non-zero), book one
      more byte, and the unread bytes are no longer the ones written; the corrected
      `Book` keeps them. */
  lemma GrowthDropsUnreadBytes(data: seq<byte>)
    requires |data| > 0 && data[0] != 0
    ensures var b1 := BookAck(WriteBooked(NewBytesBuffer(|data|), data), |data|).0;
            && Unread(b1) == data
            && BookAsWritten(b1, 1).Ok?
            && Unread(BookAsWritten(b1, 1).value) != data
            && Unread(Book(b1, 1).value) == data
  {
    FillFreshBuffer(data);
    var b1 := BytesBuffer(data, 0, 0, |data|, |data|);
    assert Unread(b1) == data;
    FirstGrowthZeroesUnread(b1, 1);
    assert Unread(BookAsWritten(b1, 1).value)[0] == 0;
  }
}
