/** The connection keychain: three CAS-guarded slots.  Each compare-and-swap is one
    atomic step that reports whether it took effect. */
module ConnectionLock {

  /** Slot indices. */
  const Processing: int := 0
  const Flushing: int := 1
  const Closing: int := 2

  /** Who closed the connection, as stored in the closing slot. */
  const NoneOwner: int := 0
  const UserOwner: int := 1
  const RingOwner: int := 2

  /** An index the `[3]int32` array admits. */
  type Slot = k: int | 0 <= k < 3

  /** `locker`: the `keychain [3]int32` array. */
  datatype Locker = Locker(keychain: seq<int>)

  ghost predicate Valid(l: Locker) {
    |l.keychain| == 3
  }

  /** The zero locker: every slot free and nobody closing. */
  function NewLocker(): (l: Locker)
    ensures Valid(l) && forall k: Slot :: l.keychain[k] == 0
  {
    Locker([0, 0, 0])
  }

  /** Compare-and-swap on one slot. */
  function Cas(l: Locker, k: Slot, expected: int, desired: int): (r: (Locker, bool))
    requires Valid(l)
    ensures Valid(r.0)
    ensures r.1 <==> l.keychain[k] == expected
    ensures r.0.keychain[k] == (if r.1 then desired else l.keychain[k])
    ensures forall j: Slot :: j != k ==> r.0.keychain[j] == l.keychain[j]
  {
    if l.keychain[k] == expected then (Locker(l.keychain[k := desired]), true) else (l, false)
  }

  /** `lock(k)`: succeeds iff the slot is 0, and then holds 1; a failure changes nothing. */
  function Lock(l: Locker, k: Slot): (r: (Locker, bool))
    requires Valid(l)
    ensures Valid(r.0)
    ensures r.1 <==> l.keychain[k] == 0
    ensures r.1 ==> r.0.keychain[k] == 1
    ensures !r.1 ==> r.0 == l
    ensures forall j: Slot :: j != k ==> r.0.keychain[j] == l.keychain[j]
  {
    Cas(l, k, 0, 1)
  }

  /** `unlock(k)`: stores 0 whatever was there. */
  function Unlock(l: Locker, k: Slot): (r: Locker)
    requires Valid(l)
    ensures Valid(r) && r.keychain[k] == 0
    ensures forall j: Slot :: j != k ==> r.keychain[j] == l.keychain[j]
  {
    Locker(l.keychain[k := 0])
  }

  /** `status(k)`: reads the slot. */
  function Status(l: Locker, k: Slot): (v: int)
    requires Valid(l)
  {
    l.keychain[k]
  }

  /** `closeBy(w)`: claims the closing slot for `w` if nobody holds it. */
  function CloseBy(l: Locker, w: int): (r: (Locker, bool))
    requires Valid(l)
    ensures Valid(r.0)
    ensures r.1 <==> Status(l, Closing) == NoneOwner
    ensures r.1 ==> Status(r.0, Closing) == w
    ensures !r.1 ==> r.0 == l
    ensures Status(r.0, Processing) == Status(l, Processing)
    ensures Status(r.0, Flushing) == Status(l, Flushing)
  {
    Cas(l, Closing, NoneOwner, w)
  }

  /** `isCloseBy(w)`: whether `w` holds the closing slot. */
  function IsCloseBy(l: Locker, w: int): (b: bool)
    requires Valid(l)
    ensures b <==> Status(l, Closing) == w
  {
    l.keychain[Closing] == w
  }

  /** A held lock excludes a second holder until it is unlocked, and unlocking makes it
      available again. */
  lemma LockExcludes(l: Locker, k: Slot)
    requires Valid(l) && Lock(l, k).1
    ensures !Lock(Lock(l, k).0, k).1
    ensures Lock(Unlock(Lock(l, k).0, k), k).1
  {
  }

  /** Reading a slot is the value the last write to it left, and reads change nothing. */
  lemma StatusAfterLock(l: Locker, k: Slot, j: Slot)
    requires Valid(l)
    ensures Status(Lock(l, k).0, j) == (if j == k && Lock(l, k).1 then 1 else Status(l, j))
    ensures Status(Unlock(l, k), j) == (if j == k then 0 else Status(l, j))
  {
  }

  /** The first actor to close wins for good: every later `closeBy` fails, `isCloseBy`
      names the winner and nobody else. */
  lemma CloseByOnce(l: Locker, w: int, w': int, v: int)
    requires Valid(l) && w != NoneOwner && CloseBy(l, w).1
    ensures !CloseBy(CloseBy(l, w).0, w').1
    ensures IsCloseBy(CloseBy(l, w).0, w)
    ensures v != w ==> !IsCloseBy(CloseBy(l, w).0, v)
  {
  }

  /** Locking and unlocking the processing and flushing slots never disturbs who closed. */
  lemma LocksKeepCloser(l: Locker, k: Slot, w: int)
    requires Valid(l) && k != Closing
    ensures IsCloseBy(Lock(l, k).0, w) == IsCloseBy(l, w)
    ensures IsCloseBy(Unlock(l, k), w) == IsCloseBy(l, w)
  {
  }
}
