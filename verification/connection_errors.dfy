/** Connection errors: the custom errnos above 0x100, the `exception` wrapper that adds
    a suffix, and its message and timeout classification. */
module ConnectionErrors {
  import opened Base
  import Bits

  /** The custom errnos: bit 8 set, the low byte indexing the message table. */
  const ErrConnClosed: nat := 0x101
  const ErrReadTimeout: nat := 0x102
  const ErrWriteTimeout: nat := 0x103
  const ErrEOF: nat := 0x104
  const ErrnoMask: nat := 0xFF

  /** The Linux errnos `syscall.Errno.Timeout` treats as timeouts (`EWOULDBLOCK` is
      `EAGAIN`). */
  const EAGAIN: nat := 11
  const ETIMEDOUT: nat := 110

  /** The message table; slot 0 is the empty string Go fills in. */
  const Errnos: seq<string> := ["", "connection has been closed", "connection read timeout",
                                "connection write timeout", "EOF"]

  /** A Go `error` as far as this file can tell them apart: a bare `syscall.Errno`, any
      other error (kept as its message), or an `*exception`. */
  datatype GoError = Errno(code: nat) | Text(msg: string) | Exception(errno: nat, suffix: string)

  /** `syscall.Errno.Error()`, the operating system's text for an errno. */
  type SysMessage = nat -> string

  /** The message table entry `int(errno) & 0x100 != 0` and `errnos[errno & 0xFF]`
      select, as written: an index past the table panics. */
  function TableEntryAsWritten(errno: nat): (r: Result<string>)
    ensures !r.Err?
  {
    Bits.Pow2Values();
    if Bits.BitAnd(errno, 0x100) == 0 then Ok("")
    else
      var i := Bits.BitAnd(errno, ErrnoMask);
      if i < |Errnos| then Ok(Errnos[i]) else Fault
  }

  /** The table entry with an index past the table read as the empty string, so that
      the operating system's text is used instead. */
  function TableEntry(errno: nat): (s: string)
  {
    Bits.Pow2Values();
    if Bits.BitAnd(errno, 0x100) == 0 then ""
    else
      var i := Bits.BitAnd(errno, ErrnoMask);
      if i < |Errnos| then Errnos[i] else ""
  }

  /** `s` with `" " + suffix` appended when the suffix is non-empty. */
  function WithSuffix(s: string, suffix: string): (t: string)
    ensures suffix == "" ==> t == s
    ensures suffix != "" ==> t == s + " " + suffix
  {
    if suffix != "" then s + " " + suffix else s
  }

  /** `exception.Error()` as written. */
  function ExceptionErrorAsWritten(errno: nat, suffix: string, sys: SysMessage): (r: Result<string>)
  {
    match TableEntryAsWritten(errno)
    case Ok(s) => Ok(WithSuffix(if s == "" then sys(errno) else s, suffix))
    case _ => Fault
  }

  /** `exception.Error()` with the corrected table lookup. */
  function ExceptionError(errno: nat, suffix: string, sys: SysMessage): (s: string)
  {
    var t := TableEntry(errno);
    WithSuffix(if t == "" then sys(errno) else t, suffix)
  }

  /** `err.Error()` for any of the three kinds. */
  function ErrorString(e: GoError, sys: SysMessage): (s: string)
    ensures e.Text? ==> s == e.msg
    ensures e.Errno? ==> s == sys(e.code)
  {
    match e
    case Errno(n) => sys(n)
    case Text(m) => m
    case Exception(n, suffix) => ExceptionError(n, suffix, sys)
  }

  /** `Exception(err, suffix)`: wraps an errno; any other error comes back as it is when
      the suffix is empty, and otherwise as its message, a space and the suffix. */
  function NewException(err: GoError, suffix: string, sys: SysMessage): (r: GoError)
    ensures err.Errno? ==> r == Exception(err.code, suffix)
    ensures !err.Errno? && suffix == "" ==> r == err
    ensures !err.Errno? && suffix != "" ==> r == Text(ErrorString(err, sys) + " " + suffix)
  {
    match err
    case Errno(n) => Exception(n, suffix)
    case _ => if suffix == "" then err else Text(ErrorString(err, sys) + " " + suffix)
  }

  /** The low byte of an errno, and whether bit 8 is set. */
  lemma MaskArithmetic(errno: nat)
    ensures Bits.BitAnd(errno, ErrnoMask) == errno % 0x100
    ensures Bits.BitAnd(errno, 0x100) != 0 <==> (errno / 0x100) % 2 == 1
  {
    Bits.Pow2Values();
    Bits.AndLowMask(errno, 8);
    Bits.AndBit(errno, 8);
  }

  /** The four custom errnos have their fixed messages, and a suffix follows one space. */
  lemma CustomMessages(suffix: string, sys: SysMessage)
    ensures ErrorString(NewException(Errno(ErrConnClosed), suffix, sys), sys)
      == WithSuffix("connection has been closed", suffix)
    ensures ErrorString(NewException(Errno(ErrReadTimeout), suffix, sys), sys)
      == WithSuffix("connection read timeout", suffix)
    ensures ErrorString(NewException(Errno(ErrWriteTimeout), suffix, sys), sys)
      == WithSuffix("connection write timeout", suffix)
    ensures ErrorString(NewException(Errno(ErrEOF), suffix, sys), sys) == WithSuffix("EOF", suffix)
  {
    MaskArithmetic(ErrConnClosed);
    MaskArithmetic(ErrReadTimeout);
    MaskArithmetic(ErrWriteTimeout);
    MaskArithmetic(ErrEOF);
  }

  /** An errno without bit 8 uses the operating system's text. */
  lemma PlainErrnoMessage(errno: nat, suffix: string, sys: SysMessage)
    requires errno < 0x100
    ensures ExceptionError(errno, suffix, sys) == WithSuffix(sys(errno), suffix)
    ensures ExceptionErrorAsWritten(errno, suffix, sys) == Ok(ExceptionError(errno, suffix, sys))
  {
    MaskArithmetic(errno);
  }

  /** The suffix never changes the message in front of it. */
  lemma SuffixAppends(errno: nat, suffix: string, sys: SysMessage)
    requires suffix != ""
    ensures ExceptionError(errno, suffix, sys) == ExceptionError(errno, "", sys) + " " + suffix
  {
  }

  /** As written, an errno with bit 8 set and a low byte of 5 or more indexes past the
      five-entry table and panics; 0x105 is the first. */
  lemma ErrorIndexPanics(errno: nat, suffix: string, sys: SysMessage)
    requires (errno / 0x100) % 2 == 1 && errno % 0x100 >= 5
    ensures ExceptionErrorAsWritten(errno, suffix, sys) == Fault
  {
    MaskArithmetic(errno);
  }

  lemma Errno105Panics(sys: SysMessage)
    ensures ExceptionErrorAsWritten(0x105, "", sys) == Fault
  {
    ErrorIndexPanics(0x105, "", sys);
  }

  /** The corrected message agrees with the written one wherever that one does not
      panic, and falls back to the operating system's text where it would. */
  lemma ErrorCorrected(errno: nat, suffix: string, sys: SysMessage)
    ensures ExceptionErrorAsWritten(errno, suffix, sys).Ok? ==>
      ExceptionErrorAsWritten(errno, suffix, sys).value == ExceptionError(errno, suffix, sys)
    ensures ExceptionErrorAsWritten(errno, suffix, sys).Fault? ==>
      ExceptionError(errno, suffix, sys) == WithSuffix(sys(errno), suffix)
  {
  }

  /** `exception.Timeout()`: the two custom timeouts, or whatever the errno reports. */
  function Timeout(errno: nat): (b: bool)
    ensures b <==> errno in {ErrReadTimeout, ErrWriteTimeout, EAGAIN, ETIMEDOUT}
  {
    if errno == ErrReadTimeout || errno == ErrWriteTimeout then true
    else errno == EAGAIN || errno == ETIMEDOUT
  }

  /** Of the custom errnos exactly the read and write timeouts are timeouts. */
  lemma CustomTimeouts()
    ensures Timeout(ErrReadTimeout) && Timeout(ErrWriteTimeout)
    ensures !Timeout(ErrConnClosed) && !Timeout(ErrEOF)
  {
  }
}
