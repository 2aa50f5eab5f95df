# anet in Dafny

A model of the sequential core of `anet`, an io_uring-based TCP reactor for Go with a
small HTTP layer (`ahttp`) and a goroutine pool on top. The model has these parts:

- **Buffers and operators.** The byte buffer has its read/write cursors and its doubling
  growth. Each fd has an operator with a detach-once guard. The operator free-list cache
  has a deferred "pending free" list.
- **Rings.** The io_uring user-data tag that carries `(event, fd)`. The round-robin ring
  balancer. The ring manager that grows and shrinks the set of event loops.
- **Connections.** The connection keychain (three compare-and-swap slots) and the close
  callbacks. The reactor's buffer transitions. The blocking read/flush loops. The custom
  errno messages.
- **HTTP.** Path normalisation and longest-prefix trie matching. Header value extraction.
  Middleware composition and dispatch. The CORS middleware. Both request contexts.
- **Worker pool.** Option folding, admission and the open/closed state machine of one
  goroutine pool, and the round-robin pool of pools.

Everything is an immutable datatype with pure state-transition functions. Concurrency is
flattened into sequential steps:

- Each compare-and-swap is one atomic step that reports whether it took effect.
- A value sent on a trigger channel, and a ring submission, are returned as an `Effect`.
- The kernel's completions are an input sequence. A blocking loop that runs out of them
  ends `Blocked`. Each round of a loop is written as its net effect on the buffer
  (`ConnectionIO.ReadRound`, `ConnectionIO.WriteRound`), and a lemma proves it equal to
  the submission, the kernel's transfer and the acknowledgement it stands for.
- A spin lock held on return makes every later acquisition `Blocks` (`WorkerPool.Call`).

Go's run-time panics are explicit values: `Fault` in a `Result` and `Panic` in an
`Outcome`. This covers index out of range, nil dereference, division by zero and a
negative `make`. Closures the code stores or calls are represented differently:

- Handlers and callbacks are identifiers.
- Middleware and handler chains are described as data and run by an interpreter (`AHttp.Run`).
- Calls into code outside the model are function parameters: opening or closing a ring, and
  the operating system's errno text.

A Go `string` is a `string` of the model holding one `char` per byte, never a decoded code point: "/é" is the three `char`s 0x2F, 0xC3, 0xA9. The router's trie is keyed by these bytes.

Where Go integers wrap, the wrap is written out: `uint64` packing in `Ring.ToUint64` and the
`int32` pool capacity in `WorkerPool.ToInt32`. Counters that the source keeps in `uintptr`,
`uint32` or `int32`, and that cannot realistically overflow, are unbounded naturals.

## Model

| member | source | states |
|---|---|---|
| Buffer.NewBytesBuffer | buffer_bytes.go:5-12 | a new buffer is valid, has `start == end == 0`, the given `cap`, no unread bytes and a slice of length 0 |
| Buffer.Next | buffer_bytes.go:24-31 | asking for more than `Len` is an error that changes nothing; otherwise it returns exactly the first `n` unread bytes, advances `start` by `n`, leaves the rest unread, and keeps `0 <= start <= end <= cap`; a negative `n` panics |
| Buffer.BookAck | buffer_bytes.go:43-49 | fails with no change when fewer than `n` bytes are left before `cap`; otherwise `end` grows by `n`, `Len` grows by `n`, and the old unread bytes are a prefix of the new ones |
| Buffer.BookAsWritten | buffer_bytes.go:33-41 | `Book` as written: succeeds exactly when `n` fits before `cap` or before `2*cap`; never moves a cursor; doubles `cap` once on growth; the grown array holds the old byte `i` only when `i < end` and `i < len(buffer)`, and zero elsewhere |
| Buffer.Book | buffer_bytes.go:33-41 | `Book` with the growth copy fixed: the same success condition, cursors and doubling, and the unread bytes are unchanged by a growth |
| Buffer.GrowthDropsUnreadBytes | buffer_bytes.go:36-37 | fill a fresh buffer completely, then `Book(1)`: as written the unread bytes are no longer the ones written; with `Book` they are |
| Buffer.FirstGrowthZeroesUnread | buffer_bytes.go:36-37 | the first growth after creation copies nothing, so every unread byte reads 0 |
| Buffer.BookFillAck | buffer_bytes.go:33-49 | Book, then fill the window, then `BookAck` appends exactly the filled bytes to the unread data, whether or not the buffer grew |
| Buffer.BookFillAckNext | buffer_bytes.go:24-49 | on an empty buffer, Book + fill + BookAck + Next returns exactly the filled bytes |
| Buffer.BookFillAckNoGrowth | buffer_bytes.go:33-49 | for the code as written, the same round trip holds whenever `Book` does not grow |
| OperatorCache.Alloc | fd_operator_cache.go:24-45 | on a non-empty free list, returns the head and unlinks it; on an empty one, first appends one block of `max(1, 4096/size)` operators; the cache stays valid (`cache[i].index == i`, links in range) |
| OperatorCache.GrowLinks | fd_operator_cache.go:32-39 | after `k` loop iterations the first new operator links to the old head and every later one to the operator created just before it |
| OperatorCache.GrowChainFrom | fd_operator_cache.go:32-39 | `k` iterations on top of a free list `xs` leave the chain of the `k` new slots, newest first, followed by `xs` |
| OperatorCache.AllocGrowChain | fd_operator_cache.go:26-42 | a growth adds operators indexed consecutively from the old length, hands out the newest, and leaves the others linked newest first |
| OperatorCache.AllocChain | fd_operator_cache.go:41-42 | `alloc` returns the first slot of the free list and leaves the rest of the list linked |
| OperatorCache.Freeable | fd_operator_cache.go:47-51 | only appends the slot to the pending list; the operators and the live list are untouched |
| OperatorCache.FreeableDefersReuse | fd_operator_cache.go:41-51 | a slot that is only queued is not handed out by the next `alloc` |
| OperatorCache.Free | fd_operator_cache.go:53-68 | an empty pending list is a no-op; otherwise the last pending slot becomes the head and the pending list is emptied |
| OperatorCache.FreeChain | fd_operator_cache.go:59-65 | `free()` pushes the pending slots in order, so the free list becomes the pending list reversed followed by the old free list |
| OperatorCache.FreeThenAllocReturnsLast | fd_operator_cache.go:41-64 | after `free()`, the next `alloc` returns the slot that was queued last, whatever else the pending list holds |
| Operator.Control | fd_operator.go:18-23 | a detach bumps the counter and reaches the ring only when the counter was 0; any other event always reaches the ring; through a nil ring it panics |
| Operator.DetachOnce | fd_operator.go:18-23 | of any number of detaches in a row, only the first reaches the ring |
| Operator.Reset | fd_operator.go:29-36 | clears the fd, every callback, the ring and the detach counter, and keeps `next` and `index` |
| Operator.ResetRearmsDetach | fd_operator.go:19-36 | after `reset`, a detach reaches the ring again |
| Ring.EncodeUserData | ring_impl.go:26-28 | the tag is a 64-bit word: the fd OR the event shifted 56 bits, with `uint64` wrap-around |
| Ring.DecodeUserData | ring_impl.go:30-34 | the event is `data / 2^56` and below 256; the fd is `data mod 2^32` |
| Ring.EncodeIsSum | ring_impl.go:26-28 | for an event byte and an fd below `2^56` the tag is `fd + event * 2^56` |
| Ring.RoundTrip | ring_impl.go:26-34 | `(event, fd)` with `fd < 2^56` decodes back to itself exactly when `fd < 2^32` |
| Ring.PrepEventsRoundTrip | ring_impl.go:26-34 | read and write submissions (events 1 and 2) with a 32-bit fd round-trip |
| Ring.Alloc | ring_impl.go:138-142 | returns the cache's next operator with its ring set to this ring; nothing else in the cache differs from `alloc` |
| Ring.Free | ring_impl.go:144-146 | only queues the operator on the cache's pending list |
| Ring.FreeOperator | fd_operator.go:25-27 | `FDOperator.free` changes only the owning ring, exactly as that ring's `Free` does; a nil ring panics |
| LoadBalance.NewLoadBalance | ring_loadbalance.go:10-12 | `ringSize == len(rings)` and the counter starts at 0 |
| LoadBalance.Pick | ring_loadbalance.go:20-23 | bumps the counter, then returns `rings[(accepted + 1) mod n]`; with no rings it divides by zero |
| LoadBalance.PicksIndex | ring_loadbalance.go:20-23 | the `i`-th of `k` picks returns `rings[(accepted + i + 1) mod n]`, and the counter ends `k` higher |
| LoadBalance.KthPick | ring_loadbalance.go:20-23 | from a fresh balancer the `k`-th pick returns `rings[k mod n]`, so the first pick is `rings[1 mod n]` |
| LoadBalance.PickWindowDistinct | ring_loadbalance.go:21 | no ring index repeats within `n` consecutive picks |
| LoadBalance.PickWindowCovers | ring_loadbalance.go:21 | every ring index occurs within `n` consecutive picks |
| LoadBalance.Rebalance | ring_loadbalance.go:25-27 | swaps the rings, sets `ringSize` to their number, and keeps the counter |
| RingManager.InitialLoops | ring_manager.go:15 | the initial loop count is `GOMAXPROCS/20 + 1`, at least 1 |
| RingManager.SetNumLoops | ring_manager.go:26-47 | `n < 1` is an error and nothing changes. Shrinking keeps exactly the first `n` rings, closes exactly the rings from index `n` on, in order (line 37), reports only the last ring's close error, and rebalances over the kept rings; with a nil balancer the rebalance panics after those closes. Growing is `run` with the new count |
| RingManager.ShrinkLoopKeepsPrefix | ring_manager.go:30-39 | the shrink loop keeps the first `n` rings in order, closes exactly the others in order, and returns the close error of the last ring |
| RingManager.RunSucceeds | ring_manager.go:53-65 | when every open succeeds, `run` keeps the old rings as a prefix, appends one per missing loop, rebalances over the whole slice, and closes no ring |
| RingManager.RunFails | ring_manager.go:55-84 | the first failed open returns its error, closes every ring the manager held, the ones this `run` opened included (lines 57 and 77-79), and leaves the manager with no loops, no rings and no balancer |
| RingManager.SetNumLoopsGrows | ring_manager.go:45-65 | growing with working opens ends with `n` loops, the old rings as a prefix, the balancer over exactly the new slice, and no ring closed |
| RingManager.Close | ring_manager.go:75-84 | closes exactly the manager's rings, in slice order; the result has no loops, rings or balancer, and reports the last ring's close error |
| RingManager.CloseEachLast | ring_manager.go:76-79 | the close loop closes every ring once, in slice order, and reports the last ring's error, forgetting every earlier one |
| RingManager.Reset | ring_manager.go:67-73 | whatever `run` does afterwards, `reset` first closes every old ring, in slice order |
| RingManager.ResetRebuilds | ring_manager.go:67-73 | with working opens, `reset` closes exactly the old rings, in slice order, and rebuilds exactly `numLoops` fresh rings |
| RingManager.ResetFails | ring_manager.go:67-73 | when reopening fails at loop `f`, `reset` returns that error, leaves the manager closed, and has closed the old rings and then the `f` rings it had reopened (line 57) |
| RingManager.Pick | ring_manager.go:49-51 | a nil balancer panics; otherwise the result is the balancer's next pick |
| RingManager.InitAsWrittenPanics | ring_manager.go:14-18 | package initialisation as written reaches `rebalance` (line 63) through the zero manager's nil balancer and panics |
| RingManager.InitStartsLoops | ring_manager.go:14-18 | initialisation with a balancer created up front starts `GOMAXPROCS/20 + 1` loops, one ring each, and the balancer covers them all |
| ConnectionLock.Lock | connection_lock.go:21-23 | succeeds iff the slot is 0, and then holds 1; a failure changes nothing; other slots are untouched |
| ConnectionLock.Unlock | connection_lock.go:25-27 | stores 0 whatever the slot held; other slots are untouched |
| ConnectionLock.StatusAfterLock | connection_lock.go:21-31 | `status` reads the value the last lock or unlock left, and other slots keep theirs |
| ConnectionLock.LockExcludes | connection_lock.go:21-27 | a held lock refuses a second holder until it is unlocked |
| ConnectionLock.CloseBy | connection_lock.go:33-35 | claims the closing slot iff nobody holds it; the processing and flushing slots are untouched |
| ConnectionLock.IsCloseBy | connection_lock.go:37-39 | true exactly when the closing slot holds that owner |
| ConnectionLock.CloseByOnce | connection_lock.go:33-39 | after a successful `closeBy(w)` every later `closeBy` fails, and `isCloseBy` is true for `w` only |
| ConnectionLock.LocksKeepCloser | connection_lock.go:5-27 | locking and unlocking the processing or flushing slot never changes who closed |
| ConnectionErrors.NewException | connection_errors.go:18-30 | an errno is wrapped with the suffix; any other error comes back as it is for an empty suffix, and otherwise as its message, a space and the suffix |
| ConnectionErrors.CustomMessages | connection_errors.go:9-70 | errnos 0x101 to 0x104 print "connection has been closed", "connection read timeout", "connection write timeout" and "EOF", followed by the suffix |
| ConnectionErrors.PlainErrnoMessage | connection_errors.go:41-46 | an errno without bit 8 prints the operating system's text |
| ConnectionErrors.SuffixAppends | connection_errors.go:47-50 | a non-empty suffix follows the message after exactly one space |
| ConnectionErrors.ErrorIndexPanics | connection_errors.go:41-42 | as written, bit 8 set with a low byte of 5 or more indexes past the five-entry table and panics |
| ConnectionErrors.Errno105Panics | connection_errors.go:41-42 | errno 0x105 is such an input |
| ConnectionErrors.ErrorCorrected | connection_errors.go:39-52 | the corrected message equals the written one wherever that does not panic, and falls back to the operating system's text where it would |
| ConnectionErrors.Timeout | connection_errors.go:54-59 | true exactly for the two custom timeouts and the timeout errnos (`EAGAIN`, `ETIMEDOUT`) |
| ConnectionErrors.CustomTimeouts | connection_errors.go:54-57 | of the custom errnos exactly the read and write timeouts are timeouts |
| Conn.Init | connection_impl.go:164-173 | state, `waitReadSize` and both timeouts are 0; input and output buffers are empty with capacity 4096; no callbacks |
| Conn.SetOnConnect | connection_onevent.go:21-26 | a nil callback is ignored; anything else replaces the stored one |
| Conn.SetOnRequest | connection_onevent.go:28-33 | a nil callback is ignored; anything else replaces the stored one |
| Conn.AddCloseCallback | connection_onevent.go:35-46 | a nil callback changes nothing; otherwise the new callback heads the chain in front of the old one, and nothing else changes |
| Conn.CloseCallbacksNewestFirst | connection_onevent.go:35-46 | registering `f1 .. fk` puts them in front of the old chain in reverse order |
| Conn.CloseCallback | connection_onevent.go:139-156 | if `needLock` and the processing lock is taken, nothing happens. With `needDetach`, no callback runs. Otherwise every callback runs once, newest first |
| Conn.RunOrder | connection_onevent.go:35-46 | after `k` registrations on a fresh chain, the run (lines 152-154) calls them in reverse registration order |
| Conn.OnClose | connection_onevent.go:86-94 | if the user wins the close, both triggers get "closed by user" and no callback runs; otherwise it is `closeCallback(true, false)` |
| Conn.UserCloseOnce | connection_onevent.go:86-94 | the first `onClose` fires the triggers, runs no callback and leaves the processing slot locked; a second one sends nothing more and runs no callback, so the callbacks run at most once |
| Conn.OnRead | connection_reactor.go:7-10 | acknowledges `n` bytes into the input buffer, ignoring its error, and delivers `err` on the read trigger |
| Conn.OnWrite | connection_reactor.go:12-15 | consumes `n` sent bytes from the output buffer, ignoring its error, and delivers `err` on the write trigger |
| Conn.SubmitRead | connection_reactor.go:3-23 | books 1024 bytes of input and submits a read of that size into the booked window |
| Conn.SubmitReadAsWritten | connection_reactor.go:17-23 | `submitRead` over `Book` as written: the same as `SubmitRead` while the 1024-byte booking fits; after a growth an unread byte survives only below the old slice length (buffer_bytes.go lines 36-37), and reads 0 otherwise |
| Conn.SubmitWrite | connection_reactor.go:25-32 | submits a write of every pending output byte, consuming none |
| Conn.ReadRoundAppends | connection_reactor.go:7-23 | submit a read, let the kernel fill the window, then `onRead`: the data is appended to the unread input |
| Conn.ReadRoundAsWrittenZeroes | connection_reactor.go:7-23 | as written, a round that grows an input buffer whose slice length is at or below the read cursor turns every unread byte into 0 and then appends the new bytes |
| Conn.WriteRoundDrains | connection_reactor.go:12-32 | a write the kernel completes in full empties the output buffer |
| ConnectionIO.ReadRound | connection_impl.go:193-194 | one read round leaves every field but the input buffer alone, keeps room for the next booking, and adds exactly the completion's byte count to the unread length |
| ConnectionIO.RoundIsSubmitFillAck | connection_reactor.go:7-23 | the round is `submitRead`'s 1024-byte booking, the kernel's write into the booked window, and `onRead` acknowledging the bytes written |
| ConnectionIO.RoundAppends | connection_reactor.go:7-10 | a round appends exactly the completion's bytes to the unread input |
| ConnectionIO.ReadRoundAsWritten | connection_reactor.go:7-23 | one round of Go's `submitRead`, kernel write and `onRead`: only the input changes, the read cursor stays, the write cursor moves by the bytes received, and a round whose booking fits keeps the capacity and the slice length |
| ConnectionIO.RoundAsWrittenNoGrowth | connection_reactor.go:17-23 | while the booking fits, Go's round is the modelled round, so every property of `ReadRound` holds of the code as written |
| ConnectionIO.RoundAsWrittenLosesInput | connection_reactor.go:17-23 | as written, a growing round on a buffer whose slice length is at or below the read cursor leaves zeros in place of the unread input, followed by the new bytes |
| ConnectionIO.FittingRoundsAppend | connection_reactor.go:7-23 | as written, full reads that fit in the buffer never grow it: they append every received byte and keep the capacity and the slice length |
| ConnectionIO.FullRoundsThenLoss | connection_reactor.go:7-23 | as written, full reads that exactly fill a buffer not grown since its read cursor, then one more round: the received bytes read back as zeros, while the modelled round keeps them |
| ConnectionIO.FreshConnectionLosesInput | connection_reactor.go:17-23 | as written, a fresh connection (buffers from `NewBytesBuffer(4096)`, connection_impl.go lines 172-173) that receives full reads filling its input and consumes nothing gets every received byte zeroed by the next read; with 4096-byte buffers that is the fifth read. The modelled round keeps them |
| ConnectionIO.WaitRead | connection_impl.go:188-203 | returns at once, consuming nothing, when `n` bytes are unread; otherwise only the input buffer changes, and never more completions are used than exist |
| ConnectionIO.ReadGoesOn | connection_impl.go:192-201 | after a round with no error that left bytes unread, the wait is the remaining wait with one more completion counted |
| ConnectionIO.ReadStops | connection_impl.go:193-200 | a round with an error returns that error after one completion; a round that left nothing unread returns "EOF" |
| ConnectionIO.WaitReadReceives | connection_impl.go:192-201 | the input after a wait is the input before it followed by every byte the consumed completions delivered |
| ConnectionIO.WaitReadOutcome | connection_impl.go:188-203 | a wait ends in one of three ways. It returns with `n` bytes unread. It ends blocked after every completion with fewer. Or it fails on the last completion consumed, with that completion's error or with "EOF" after a round that left nothing; no earlier completion had an error |
| ConnectionIO.ReadBytes | connection_impl.go:60-74 | with `n` bytes unread, returns the first `n` without waiting; otherwise a returned read has exactly `n` bytes, a failure is `waitRead`'s error, and a blocked call consumed every completion |
| ConnectionIO.ReadBytesReceives | connection_impl.go:60-74 | the bytes returned, followed by what stays unread, are the bytes unread before the call followed by everything the consumed completions delivered |
| ConnectionIO.ReadString | connection_impl.go:76-90 | `ReadBytes` with the bytes turned into a string, one character per byte; the same connection, count and error |
| ConnectionIO.IndexOfFirst | connection_impl.go:212-218 | the scan returns the first index holding the delimiter, and nothing when no byte from the start position on is the delimiter |
| ConnectionIO.DelimiterFirst | connection_impl.go:207-218 | the found index holds the delimiter and no earlier unread byte does; nothing is found exactly when the unread input lacks the delimiter |
| ConnectionIO.WaitReadUntil | connection_impl.go:205-233 | only the input buffer changes, no more completions are used than exist, and a blocked wait consumed every one |
| ConnectionIO.UntilTakesLine | connection_impl.go:219-221 | with a delimiter unread, the call consumes and returns the unread bytes up to and including its first occurrence, using no completion |
| ConnectionIO.UntilGoesOn | connection_impl.go:224-231 | without a delimiter, a round with no error that left bytes unread is followed by the remaining wait, with one more completion counted |
| ConnectionIO.UntilStops | connection_impl.go:224-230 | without a delimiter, a round with an error returns that error and one that left nothing returns "EOF", after one completion |
| ConnectionIO.WaitReadUntilOutcome | connection_impl.go:205-233 | a returned line ends with the delimiter and holds no earlier one; a failure carries the last consumed completion's error, or "EOF" with the input empty |
| ConnectionIO.LineEndsAtDelimiter | connection_impl.go:212-221 | the line cut at the first delimiter ends with it and holds no earlier one |
| ConnectionIO.UntilAtOnce | connection_impl.go:207-221 | a delimiter already unread is returned without waiting for any completion |
| ConnectionIO.LineSplitsInput | connection_impl.go:219-221 | the line up to the first delimiter, followed by what `SeekAck` leaves, is the whole unread input |
| ConnectionIO.WaitReadUntilReceives | connection_impl.go:205-233 | the line handed back, followed by the input left over, is the input before followed by every byte received: nothing is lost or duplicated |
| ConnectionIO.WriteRound | connection_impl.go:240-241 | one flush round leaves every field but the output buffer alone; a count within the pending bytes shortens the output by that count, a larger one changes nothing |
| ConnectionIO.RoundIsSubmitAck | connection_reactor.go:12-32 | the round is `submitWrite` followed by `onWrite` with the completion's count |
| ConnectionIO.WriteRoundSuffix | connection_reactor.go:12-15 | a round leaves a suffix of the pending output: bytes are only ever sent from the front |
| ConnectionIO.WaitFlush | connection_impl.go:235-247 | returns at once when nothing is pending; otherwise only the output buffer changes |
| ConnectionIO.FlushGoesOn | connection_impl.go:239-245 | a round with no error is followed by the remaining flush, with one more completion counted |
| ConnectionIO.FlushStops | connection_impl.go:240-244 | a round with an error returns that error after one completion |
| ConnectionIO.WaitFlushOutcome | connection_impl.go:235-247 | a flush ends in one of three ways: with the output empty, with the last consumed completion's error, or blocked with bytes still pending after every completion; no earlier completion had an error |
| ConnectionIO.WaitFlushSuffix | connection_impl.go:235-247 | what remains pending after a flush is a suffix of what was pending before |
| ConnectionIO.FullWriteFlushes | connection_impl.go:235-247 | a write the kernel completes in full finishes the flush after one completion |
| ConnectionIO.Flush | connection_impl.go:110-118 | without a write timeout, a returned flush leaves the output empty, and an empty output returns at once |
| Router.NormalizePathSlash | ahttp/router.go:59-66 | the result starts with '/'; "" becomes "/"; a path without a leading '/' gets exactly one; any other path is unchanged |
| Router.NormalizeIdempotent | ahttp/router.go:59-66 | normalising twice is normalising once |
| Router.Insert | ahttp/router.go:29-39 | adds every prefix of the path as a node and marks the path as an end; the trie stays prefix-closed |
| Router.LongestPrefixMatchSpec | ahttp/router.go:41-57 | the match is "" or a registered non-empty prefix of the query, and no longer registered prefix exists |
| Router.MatchUnique | ahttp/router.go:41-57 | two registered prefixes of a query with the same length are equal, so the longest one is unique |
| Router.InsertThenMatch | ahttp/router.go:29-57 | after `insert(p)` with `p` non-empty, matching `p` returns `p` |
| Router.Add | ahttp/router.go:17-21 | stores the handler under the normalised path and inserts that path |
| Router.AddKeepsRouted | ahttp/router.go:17-21 | every route key is a trie end and "" never is |
| Router.AddThenFind | ahttp/router.go:17-27 | a path finds the handler it was just added with, however its leading slash is written |
| Router.FindMissing | ahttp/router.go:23-27 | when no registered path is a prefix of the normalised path, `find` returns no handler |
| Router.FindLongest | ahttp/router.go:23-27 | otherwise `find` returns the handler of the longest registered prefix |
| Router.RuneBytes | ahttp/router.go:51 | `string(char)` of a byte below 0x80 is that byte; of any other byte it is two bytes (its UTF-8 encoding) |
| Router.ExpandAscii | ahttp/router.go:51 | rebuilding a string byte by byte through `string(char)` returns it unchanged exactly when every byte is below 0x80, and makes it longer otherwise |
| Router.WalkAsWrittenExpands | ahttp/router.go:41-57 | the written walk ends with the rebuilt form of the prefix the byte-wise walk finds |
| Router.LongestPrefixMatchAsWritten | ahttp/router.go:41-57 | as written, `longestPrefixMatch` returns the rebuilt form of the longest registered prefix |
| Router.FindAsWritten | ahttp/router.go:23-27 | as written, `find` agrees with the byte-wise `Find` whenever the matched prefix is ASCII |
| Router.FindAsWrittenAscii | ahttp/router.go:23-57 | on a normalised path of ASCII bytes, the written `find` equals `Find`, so every `Find` lemma carries over |
| Router.NonAsciiAddThenFindAsWritten | ahttp/router.go:17-57 | on a new router, a path with a byte from 0x80 up is found by the byte-wise `Find` but, as written, `find` returns no handler |
| Router.AccentedPathIsLost | ahttp/router.go:17-57 | `add("/é", h)` then `find("/é")` returns no handler as written, and `h` when corrected |
| Middleware.ValuesFromHeader | ahttp/middleware/middleware.go:13-36 | no header values gives "header not found"; nothing kept gives "value not found"; a success is non-empty |
| Middleware.ExtractOne | ahttp/middleware/middleware.go:23-29 | a value is kept under a non-empty prefix iff it is strictly longer and starts with the prefix up to ASCII case, and then its remainder is returned |
| Middleware.ExtractAppend | ahttp/middleware/middleware.go:21-30 | extraction distributes over concatenation, so the output keeps input order |
| Middleware.ExtractMembers | ahttp/middleware/middleware.go:21-30 | every output element is the remainder of a kept input value, and every kept value contributes its remainder |
| Middleware.EmptyPrefixKeepsAll | ahttp/middleware/middleware.go:23-26 | with an empty prefix every value comes back unchanged and in order |
| Middleware.ShortValueDropped | ahttp/middleware/middleware.go:27 | a value no longer than a non-empty prefix, such as a bare "Bearer", is dropped |
| Middleware.PrefixCaseInsensitive | ahttp/middleware/middleware.go:27-28 | "bearer xyz" is kept under the prefix "Bearer " and yields "xyz" |
| Middleware.ValuesFromHeaderCases | ahttp/middleware/middleware.go:13-36 | the three outcomes in terms of the inputs: no values, no value kept, or exactly the kept remainders |
| Cors.WithCorsHeaders | ahttp/middleware/cors.go:12-14 | the three Access-Control-Allow-* headers hold their fixed values and every other header is kept |
| Cors.SetCorsHeaders | ahttp/middleware/cors.go:12-14 | a nil response panics; otherwise only the header map changes, to the decorated one |
| Cors.Decorated | ahttp/middleware/cors.go:12-14 | the context handed on is the incoming one with the CORS headers set |
| Cors.PreflightShortCircuits | ahttp/middleware/cors.go:15-18 | an OPTIONS request gets the headers and status 204, returns nil, and runs no handler |
| Cors.OtherMethodsPassThrough | ahttp/middleware/cors.go:19-20 | any other request returns exactly what the next handler returns, run once on the decorated context |
| Cors.NilHandlesPanic | ahttp/middleware/cors.go:12-15 | a nil response or request panics before any handler runs |
| AHttp.ApplyIsNest | ahttp/ahttp.go:127-132 | `applyMiddleware(h, m1..mk)` is `m1(m2(…mk(h)))`, and with no middleware it is `h` |
| AHttp.ApplyDownNests | ahttp/ahttp.go:128-130 | the downward loop from index `i-1` nests the first `i` middlewares, the first outermost |
| AHttp.NestAppend | ahttp/ahttp.go:127-132 | composing two lists nests the second inside the first |
| AHttp.Use | ahttp/ahttp.go:65-67 | appends the middleware, keeping the order |
| AHttp.UseNestsInside | ahttp/ahttp.go:65-67 | middleware added by a later `Use` wraps the handler inside the earlier ones when a request is served (line 113) |
| AHttp.ServerWrapsRoute | ahttp/ahttp.go:77-82 | a request served at line 113 runs the server's middleware outermost, then the route's, then the handler |
| AHttp.GetPath | ahttp/ahttp.go:119-125 | the raw path when it is non-empty, otherwise the decoded path |
| AHttp.NotFoundFails | ahttp/ahttp.go:17-19 | `NotFoundHandler` returns `ErrNotFound` and runs no endpoint |
| AHttp.SetParams | ahttp/ahttp.go:105-108 | on a reset context, each router parameter reads back through `Get`, and nothing else is stored |
| AHttp.Resolve | ahttp/ahttp.go:104-111 | the router's handler when there is one, else `NotFoundHandler` |
| AHttp.Prepared | ahttp/ahttp.go:102-112 | the context is reset to the request and response, holds the parameters only when a handler was found, and records the resolved handler |
| AHttp.ServeRunsResolved | ahttp/ahttp.go:101-117 | the request runs the resolved handler inside the server middleware; unless the chain panics, the context is reset to nil and goes back to the pool (lines 115-116); a panic skips both, since nothing recovers |
| AHttp.EndpointPanicSkipsPut | ahttp/ahttp.go:113-116 | with no middleware, a routed endpoint's context stays out of the pool exactly when the endpoint panics |
| AHttp.FoundParamsStored | ahttp/ahttp.go:104-108 | a found handler sees exactly the router's parameters in the store |
| AHttp.UnroutedNotFound | ahttp/ahttp.go:104-114 | without a handler the parameters are ignored, and without server middleware the request fails with `ErrNotFound` |
| AHttp.UnroutedBehindCors | ahttp/ahttp.go:104-114 | behind the CORS middleware (ahttp/middleware/cors.go lines 9-23) an unrouted GET still fails with `ErrNotFound`, and its response carries the CORS headers |
| AHttp.RoutedEndpointRuns | ahttp/ahttp.go:101-117 | a routed endpoint with no middleware runs once, as the only endpoint |
| AHttpContext.NewContext | ahttp/context.go:10-15 | the request and response are installed and every other field is nil |
| AHttpContext.Get | ahttp/context.go:25-27 | a value is read back exactly when the store exists and holds the key |
| AHttpContext.Set | ahttp/context.go:29-34 | the key then reads back the value; other keys, the request, response, query and handler are unchanged |
| AHttpContext.GetBeforeSet | ahttp/context.go:10-27 | a fresh context reads nil for every key |
| AHttpContext.SetHandler | ahttp/context.go:85-91 | `Handler()` then returns the handler, and nothing else changes |
| AHttpContext.Reset | ahttp/context.go:111-117 | installs the request and response and clears query, handler and store |
| AHttpContext.ResetForgets | ahttp/context.go:111-117 | after `Reset` no key reads back and no handler is set, whatever was stored before |
| AHttpContext.SetHeader | ahttp/middleware/cors.go:12 | a nil response panics; otherwise the header map gets the key set and nothing else changes |
| AHttpContext.WriteHeader | ahttp/response.go:34-36 | a nil response panics; otherwise the status becomes the code, overwriting any earlier one |
| HttpContext.SetPath | http/context.go:68-74 | `Path()` then returns the path, and nothing else changes |
| HttpContext.SetHandler | http/context.go:140-146 | `Handler()` then returns the handler, and nothing else changes |
| HttpContext.SetParamNames | http/context.go:89-91 | only the names change |
| HttpContext.SetParamValues | http/context.go:97-99 | only the values change |
| HttpContext.ParamSpec | http/context.go:76-83 | `Param(name)` is the value at the first index that has this name and a value, and "" when there is none |
| HttpContext.ParamValues | http/context.go:93-95 | the first `len(pnames)` values, read past the slice's length up to its capacity; a shorter backing array panics |
| HttpContext.ParamsAgree | http/context.go:76-99 | with as many values as names, `ParamValues` is the values and `Param` of a name finds its value |
| HttpContext.FewerValuesPanic | http/context.go:93-99 | a variadic value list shorter than the names makes `ParamValues` panic |
| HttpContext.Reset | http/context.go:148-156 | installs the request and response and clears query, handler, path, names and values |
| HttpContext.ResetClearsParams | http/context.go:148-156 | after `Reset` every parameter reads "" and `ParamValues` is empty |
| PoolOptions.ApplyFields | internal/pool/options.go:15-49 | each option sets the fields it writes and leaves every other field as it was |
| PoolOptions.WithOptionsReplaces | internal/pool/options.go:15-19 | `WithOptions(o)` replaces the whole record with `o` |
| PoolOptions.LoadNothing | internal/pool/options.go:51-57 | loading no options gives the all-zero record |
| PoolOptions.LoadIsLeftToRight | internal/pool/options.go:53-55 | loading is a left-to-right fold from the zero record |
| PoolOptions.ApplyAllSnoc | internal/pool/options.go:53-55 | applying `opts + [opt]` is applying `opt` after `opts` |
| PoolOptions.UnwrittenStaysZero | internal/pool/options.go:51-57 | a field that no option writes keeps its zero value |
| PoolOptions.LastWriterWins | internal/pool/options.go:53-55 | a field holds what the last option writing it wrote |
| WorkerPool.ToInt32 | internal/pool/pool_impl.go:29 | the result is in the `int32` range, equals the input there, and is congruent to it mod `2^32` |
| WorkerPool.NewGoPool | internal/pool/pool_impl.go:16-44 | size `<= 0` means capacity -1. With purging on, a negative expiry is the error and 0 becomes one second. The pool starts open and empty, with the loaded options |
| WorkerPool.HugeSizeTruncates | internal/pool/pool_impl.go:29 | a size of `2^32` gives capacity 0, and `2^31` gives a negative capacity |
| WorkerPool.Free | internal/pool/pool_impl.go:75-81 | -1 for an unbounded pool, else capacity minus running |
| WorkerPool.FreeNonNegative | internal/pool/pool_impl.go:75-81 | in a valid bounded pool the free count lies between 0 and the capacity |
| WorkerPool.IsClosed | internal/pool/pool_impl.go:83-85 | true exactly in the closed state |
| WorkerPool.DecisionOrder | internal/pool/pool_impl.go:216-233 | the decision order: reuse an idle worker; else spawn when unbounded or below capacity; else fail when non-blocking or when `MaxBlockingTasks` submitters already wait; else park |
| WorkerPool.DecideKeepsValid | internal/pool/pool_impl.go:216-233 | a decision keeps a valid pool valid and releases the lock |
| WorkerPool.RetrieveWorkerAsWritten | internal/pool/pool_impl.go:211-215 | as written, the closed check returns while still holding the lock |
| WorkerPool.RetrieveWorker | internal/pool/pool_impl.go:211-238 | blocks iff the lock is held; on a closed pool it returns the closed error without keeping the lock; on an open pool it makes the decision |
| WorkerPool.WakeAsWritten | internal/pool/pool_impl.go:231-236 | as written, a parked submitter woken on a closed pool returns the error with the lock held; on an open pool it leaves the waiting count and runs the `for` loop of `retrieveWorker` again with the lock held |
| WorkerPool.Wake | internal/pool/pool_impl.go:231-236 | corrected: the woken submitter leaves the waiting count; on a closed pool it releases the lock and gets the error, on an open pool it runs the `for` loop of `retrieveWorker` again with the lock held |
| WorkerPool.Submit | internal/pool/pool_impl.go:87-96 | a closed pool refuses with "this pool hash been closed"; an open one retrieves a worker |
| WorkerPool.SubmitError | internal/pool/pool_impl.go:91-95 | a failed decision is returned as its error; a reused or spawned worker gives nil, and so does parking, whose final result comes from the wake-up |
| WorkerPool.SubmitClosedRunsNothing | internal/pool/pool_impl.go:87-90 | a submission to a closed pool runs nothing and leaves the pool as it was |
| WorkerPool.SubmitKeepsValid | internal/pool/pool_impl.go:87-96 | submitting to a valid pool never blocks and keeps it valid |
| WorkerPool.Release | internal/pool/pool_impl.go:98-113 | an open pool is closed and its idle workers dropped; a closed one gives "this pool has been closed"; a leaked lock blocks the call, but only after the state has become CLOSED (line 99, before the lock at line 108) |
| WorkerPool.StuckReleaseRefusesSubmit | internal/pool/pool_impl.go:87-113 | while a release is stuck on a held lock, the pool is already closed: a submission gets the closed error and a second release errors |
| WorkerPool.Reboot | internal/pool/pool_impl.go:129-136 | the pool ends open; an open pool is unchanged |
| WorkerPool.ReleaseOnce | internal/pool/pool_impl.go:98-136 | a second release errors and changes nothing, and a reboot after a release reopens the pool |
| WorkerPool.RevertWorker | internal/pool/pool_impl.go:240-254 | refuses when the pool is over capacity or closed; otherwise the worker joins the idle stack |
| WorkerPool.RevertThenReuse | internal/pool/pool_impl.go:217-254 | a worker reverted to a valid open pool is the next one a submitter gets |
| WorkerPool.LockLeakBlocksReboot | internal/pool/pool_impl.go:231-236 | as written: a submitter parked on a full pool is woken by `Release` (lines 98-113) and returns holding the lock, so after `Reboot` (lines 129-136) every submission blocks |
| WorkerPool.ClosedRetrieveLeaks | internal/pool/pool_impl.go:212-214 | as written: the same happens when the pool is closed before `retrieveWorker` takes the lock |
| WorkerPool.WakeAfterReleaseRecovers | internal/pool/pool_impl.go:231-236 | corrected: the woken submitter gets the closed error, the pool stays valid, and after `Reboot` a submission returns |
| WorkerPool.StepsKeepValid | internal/pool/pool_impl.go:87-254 | every corrected step keeps a valid pool valid and never blocks |
| MultiPool.BuildPoolsSpec | internal/pool/multipool_impl.go:13-19 | the construction loop succeeds exactly when one sub-pool can be built, and then builds `size` identical sub-pools; otherwise it returns that error |
| MultiPool.NewMultiGoPool | internal/pool/multipool_impl.go:11-21 | a negative size panics; a success has `size` sub-pools, index 0, and is open |
| MultiPool.NewMultiGoPoolCases | internal/pool/multipool_impl.go:11-21 | a non-negative size fails with the sub-pool's error exactly when a sub-pool cannot be built |
| MultiPool.TotalFreeBounded | internal/pool/multipool_impl.go:53-59 | over bounded sub-pools, the summed free count is summed capacity minus summed running |
| MultiPool.FreeIsCapacityMinusRunning | internal/pool/multipool_impl.go:29-59 | with bounded sub-pools, `Free() == Capacity() - Running()` |
| MultiPool.FreshCounters | internal/pool/multipool_impl.go:11-59 | a fresh multipool of `size` bounded sub-pools has capacity `size * sizePerPool`, nobody running or waiting, and all of it free |
| MultiPool.Next | internal/pool/multipool_impl.go:119-125 | returns the index before the increment, modulo the number of pools; no pools divides by zero |
| MultiPool.NextsIndex | internal/pool/multipool_impl.go:119-125 | after `k` calls the index is `k` higher, and the last call returned `(index + k - 1) mod n` |
| MultiPool.KthNext | internal/pool/multipool_impl.go:119-125 | from a fresh or rebooted index, the `k`-th call returns `(k - 1) mod n` |
| MultiPool.Submit | internal/pool/multipool_impl.go:65-70 | a closed multipool refuses; otherwise the task goes to the sub-pool `next()` picks, and only that sub-pool changes |
| MultiPool.ReleaseFromSpec | internal/pool/multipool_impl.go:77-84 | the loop closes every sub-pool from `i` on and leaves the earlier ones alone; the message only grows, and it stays as it was exactly when every one of those sub-pools was open |
| MultiPool.Release | internal/pool/multipool_impl.go:72-89 | a closed multipool gives "this pool has been closed" and touches no sub-pool; a release stuck on a sub-pool's lock has already closed the multipool |
| MultiPool.ReleaseAll | internal/pool/multipool_impl.go:72-89 | releasing an open multipool closes every sub-pool, and returns nil exactly when every sub-pool was open |
| MultiPool.Reboot | internal/pool/multipool_impl.go:110-117 | a closed multipool reopens, resets its index to 0, and reboots every sub-pool; an open one is unchanged |
| MultiPool.ReleaseRebootRestarts | internal/pool/multipool_impl.go:72-125 | release then reboot: every sub-pool is open again, and the next task goes to sub-pool 0 |

## Left out

- Kernel I/O is not modelled: io_uring `Wait`/`Control`, `openDefaultPoll` and the unsafe pointer helpers. Opening and closing a ring are function parameters of the ring manager.
- The raw-memory write of a submission is not modelled either: `&data[0]` on an empty write slice would panic there. Submissions are returned as effects.
- Goroutines are left out: the `onProcess` and `onConnect` loops, the worker goroutines with their `sync.Cond`, and the purge and ticktock loops. A spawned worker is counted as running at once. Its exit and its later decrement of `running` are not modelled.
- The worker stack is a count of idle workers, because which worker is reused is not observable in the admission logic.
- Timers are left out: `waitReadWithTimeout`, `waitFlushWithTimeout`, and `ReleaseTimeout` of both pools.
- ConnectionIO.ReadBytes: requires a zero read timeout whenever the bytes are not yet there, because the timed wait is not modelled.
- ConnectionIO.ReadString: the same timeout requirement.
- ConnectionIO.Flush: requires a zero write timeout.
- Conn.SubmitRead: books with the corrected growth copy (see Findings). Go's `submitRead` is `Conn.SubmitReadAsWritten`, which is the same whenever the booking fits and loses unread input when it grows.
- ConnectionIO.ReadRound: grows with the corrected copy of every written byte. Go copies only up to the slice length, which is 0 on a connection's first growth (`ConnectionIO.ReadRoundAsWritten`, `ConnectionIO.FreshConnectionLosesInput`).
- Conn.ReadRoundAppends: the appending holds for the corrected growth. As written it holds only while the booking fits (`ConnectionIO.RoundAsWrittenNoGrowth`); a growing round zeroes earlier unread input (`Conn.ReadRoundAsWrittenZeroes`).
- ConnectionIO.RoundIsSubmitFillAck: equates the round with the corrected `SubmitRead`. Go's round is `ConnectionIO.ReadRoundAsWritten`, which agrees only while the booking fits.
- ConnectionIO.RoundAppends: exact appending is a property of the corrected growth. Go's round appends exactly only while the booking fits.
- ConnectionIO.WaitReadReceives: "nothing lost" describes the corrected buffer. In Go a wait whose rounds grow the buffer can lose unread input (see Findings).
- ConnectionIO.ReadBytesReceives: the same corrected-growth content claim as `WaitReadReceives`.
- ConnectionIO.WaitReadUntilReceives: the same corrected-growth content claim as `WaitReadReceives`.
- WorkerPool.Valid: the bound `running <= capacity` holds in the sequential model only. Go unlocks (pool_impl.go line 222) before the new worker counts itself as running (worker.go line 12), so concurrent submitters can over-admit; `revertWorker` re-checks for that at pool_impl.go line 241.
- ConnectionErrors.NewException: a Go error is never nil in the model. `Exception(nil, suffix)` would call `Error()` on a nil interface and panic (connection_errors.go line 24); no call site in the modelled core passes nil. Also, when the suffix is non-empty and `err` is itself an `*Exception` wrapping an errno with bit 8 set and a low byte of 5 or more, Go's `err.Error()` at line 24 panics (see Findings); the model formats that inner error with the corrected `ExceptionError` instead.
- ConnectionIO.WaitRead: requires an input buffer of at least 1024 bytes and read completions of at most 1024 bytes. The 4096-byte buffers of `init` qualify and booking only grows a buffer; the kernel never writes past the 1024-byte window it was given.
- Conn.WithBuffers: connection_impl.go creates its buffers with `NewBytesBuffer`, which no file of this model defines; it is taken to be `newBytesBuffer` of buffer_bytes.go (a slice of length 0 and the given capacity).
- Buffer.Seek: `Seek`, `SeekAck`, `SeekAll`, `ReadBytes` and `ReadString` of the buffer are called by the connection. buffer.go is not part of this model, so they are given the reader contract as used (peek, consume, peek all, read and consume, read and consume `n` bytes as a string) rather than a body from source. The buffer's `ReadString(n)` is taken to be `ReadBytes(n)` with the bytes turned into a string, which `ConnectionIO.ReadString` uses.
- Conn.OnWrite: takes `n` as a natural, because the kernel never reports a negative byte count to the write path.
- RingManager.SetNumLoops: requires one ring per loop, the invariant every manager operation keeps.
- Router.LongestPrefixMatchSpec: describes the corrected walk, which returns the matched bytes themselves. Go's walk is `Router.LongestPrefixMatchAsWritten`; the two agree on paths whose bytes are all below 0x80 (`Router.FindAsWrittenAscii`, see Findings).
- Router.InsertThenMatch: the same restriction. As written the match is the rebuilt string, which equals the path only when the path is ASCII.
- Router.AddThenFind: holds for the corrected `find`. As written it holds for ASCII paths only; `Router.NonAsciiAddThenFindAsWritten` shows a non-ASCII path is lost.
- Router.FindLongest: the same restriction as `Router.AddThenFind`.
- Router.NewRouter: `newRouter` leaves the root node and the route map nil, so `add` would panic on a nil map. The model starts from an initialised empty router.
- The server's router is abstract. ahttp.go calls `router.add` and `router.find` with an HTTP method and expects parameters back, which ahttp/router.go does not provide. The server in ahttp.go is therefore modelled with an abstract lookup (`AHttp.Finder`). ahttp/router.go is modelled on its own, with the walk corrected as Findings describes.
- The GET and POST wrappers are covered through `AHttp.RouteHandler`. ahttp/router_test.go tests a method/parameter API that the router does not have, and is not used.
- `strings.EqualFold` is reduced to ASCII case folding. `textproto.CanonicalMIMEHeaderKey` is left out: the header's values are passed in directly.
- `syscall.Errno.Error()` is a parameter. `Errno.Timeout()` is reduced to the Linux timeout errnos (`EAGAIN`, `ETIMEDOUT`). `Temporary()` is not modelled.
- MultiPool.ReleaseFromSpec: states whether the release loop produces an error message, not the text of its "pool i: <error>" lines.
- Counters are unbounded naturals with no wrap-around: the balancer's `uintptr`, the multipool's `uint32` index, and the pools' `int32` running and waiting counters.
- `time.Duration` is an integer count of nanoseconds.
- Not modelled, because they wrap libraries (JSON, reflection, url, cookies, logging, panic capture): the query, form, cookie and JSON helpers of both contexts; the binder; the JWT, recovery and logger middlewares.
- Not modelled: the listener and accept loop (anet.go, anet_server.go) and the fd and `net.Conn` handling in `connection.init` and `Close`.
- operator.go duplicates fd_operator.go. connection_impl.go duplicates `AddCloseCallback`. The fd_operator.go and connection_onevent.go versions are the ones modelled.

## Findings

| source | as written | input that shows it | evidently intended | confidence | as-written member | corrected member |
|---|---|---|---|---|---|---|
| buffer_bytes.go:36-37 | growth copies `min(end, len(buffer))` bytes, and the slice length is 0 after creation and `end` after each growth, so bytes acknowledged since the last allocation are lost | `newBytesBuffer(4)`, fill 4 bytes with `Book`/`BookAck`, then `Book(1)`: the 4 unread bytes read back as zeros | copy `buffer[:end]` so every written byte survives a growth | high; not executed | Buffer.BookAsWritten, Buffer.GrowthDropsUnreadBytes | Buffer.Book, Buffer.BookFillAck |
| connection_reactor.go:17-23 | `submitRead` books through the growth above, on an input buffer created by `NewBytesBuffer(4096)` (connection_impl.go line 172) with slice length 0 | a fresh connection receives four full 1024-byte reads without consuming any; the fifth `submitRead` grows the buffer and the 4096 unread bytes read back as zeros | unread input survives every read booking | high; not executed | ConnectionIO.ReadRoundAsWritten, ConnectionIO.FreshConnectionLosesInput | ConnectionIO.ReadRound, ConnectionIO.RoundAppends |
| ahttp/router.go:51 | `currentPrefix += string(char)` converts each byte to the rune of the same value and appends its UTF-8 encoding, so a byte from 0x80 up becomes two bytes and the prefix is no longer a registered path | `add("/é", h)` then `find("/é")`: the walk matches bytes 2F C3 A9 and builds "/Ã©" (2F C3 83 C2 A9), for which `r.routes` has no handler | append the byte itself (`query[:i+1]`) | high; not executed | Router.LongestPrefixMatchAsWritten, Router.NonAsciiAddThenFindAsWritten, Router.AccentedPathIsLost | Router.LongestPrefixMatchSpec, Router.AddThenFind |
| connection_errors.go:41-42 | any errno with bit 8 set indexes the five-entry `errnos` array with its low byte | `Exception(syscall.Errno(0x105), "").Error()` indexes `errnos[5]` and panics | fall back to the operating system's text when the index is past the table | high; not executed | ConnectionErrors.ExceptionErrorAsWritten, ConnectionErrors.Errno105Panics | ConnectionErrors.ExceptionError, ConnectionErrors.ErrorCorrected |
| ring_manager.go:14-18 | `init` builds `&manager{}` with a nil balancer and calls `setNumLoops`, whose `run` calls `m.balance.rebalance` | any `GOMAXPROCS` with working ring opens: the first `rebalance` dereferences the nil balancer and panics | create the balancer before the first `run` | medium (ring_manager.go shows no other initialisation of the balancer); not executed | RingManager.InitAsWritten, RingManager.InitAsWrittenPanics | RingManager.Init, RingManager.InitStartsLoops |
| internal/pool/pool_impl.go:213-235 | both closed-pool exits of `retrieveWorker` (lines 213-214 and 234-235) return without `p.lock.Unlock()` | a full blocking pool: `Submit` parks, `Release` wakes it, it returns holding the lock; after `Reboot` every `Submit` spins forever on the lock | unlock before returning the closed error | high; not executed | WorkerPool.RetrieveWorkerAsWritten, WorkerPool.LockLeakBlocksReboot | WorkerPool.RetrieveWorker, WorkerPool.WakeAfterReleaseRecovers |
