/** Worker-pool options: the record of settings and the functional options that
    `loadOptions` applies to a zero record, left to right. */
module PoolOptions {
  import opened Base

  /** `Options`; a duration is a count of nanoseconds and the panic handler is an
      opaque closure, `None` when nil. */
  datatype Options = Options(
    expiryDuration: int,
    maxBlockingTasks: int,
    nonBlocking: bool,
    panicHandler: Option<nat>,
    disablePurge: bool)

  /** One `Option` closure, by the constructor that made it. */
  datatype Opt =
    | WithOptions(options: Options)
    | WithExpiryDuration(expiry: int)
    | WithMaxBlockingTasks(max: int)
    | WithNonblocking(nonBlocking: bool)
    | WithPanicHandler(handler: Option<nat>)
    | WithDisablePurge(disable: bool)

  /** `new(Options)`. */
  const Zero := Options(0, 0, false, None, false)

  /** Calling the option on the record. */
  function Apply(o: Options, opt: Opt): (o': Options)
  {
    match opt
    case WithOptions(all) => all
    case WithExpiryDuration(d) => o.(expiryDuration := d)
    case WithMaxBlockingTasks(n) => o.(maxBlockingTasks := n)
    case WithNonblocking(b) => o.(nonBlocking := b)
    case WithPanicHandler(h) => o.(panicHandler := h)
    case WithDisablePurge(b) => o.(disablePurge := b)
  }

  /** `loadOptions(options...)`: the loop over the options, as a left fold. */
  function LoadOptions(opts: seq<Opt>): (o: Options)
    decreases |opts|
  {
    if opts == [] then Zero else Apply(LoadOptions(opts[..|opts| - 1]), opts[|opts| - 1])
  }

  /** The fields of `Options`, and the value one holds. */
  datatype Field = Expiry | MaxBlocking | NonBlocking | PanicHandler | DisablePurge
  datatype FieldValue = IntValue(i: int) | BoolValue(b: bool) | HandlerValue(h: Option<nat>)

  function Get(o: Options, f: Field): (v: FieldValue)
  {
    match f
    case Expiry => IntValue(o.expiryDuration)
    case MaxBlocking => IntValue(o.maxBlockingTasks)
    case NonBlocking => BoolValue(o.nonBlocking)
    case PanicHandler => HandlerValue(o.panicHandler)
    case DisablePurge => BoolValue(o.disablePurge)
  }

  /** Whether an option writes field `f`: `WithOptions` writes them all, each setter
      its own. */
  predicate Writes(opt: Opt, f: Field) {
    match opt
    case WithOptions(_) => true
    case WithExpiryDuration(_) => f == Expiry
    case WithMaxBlockingTasks(_) => f == MaxBlocking
    case WithNonblocking(_) => f == NonBlocking
    case WithPanicHandler(_) => f == PanicHandler
    case WithDisablePurge(_) => f == DisablePurge
  }

  /** The value an option writes into field `f`. */
  function Written(opt: Opt, f: Field): (v: FieldValue)
    requires Writes(opt, f)
  {
    match opt
    case WithOptions(all) => Get(all, f)
    case WithExpiryDuration(d) => IntValue(d)
    case WithMaxBlockingTasks(n) => IntValue(n)
    case WithNonblocking(b) => BoolValue(b)
    case WithPanicHandler(h) => HandlerValue(h)
    case WithDisablePurge(b) => BoolValue(b)
  }

  /** Each option sets what it writes, whatever the record held, and leaves every
      other field alone. */
  lemma ApplyFields(o: Options, opt: Opt, f: Field)
    ensures Writes(opt, f) ==> Get(Apply(o, opt), f) == Written(opt, f)
    ensures !Writes(opt, f) ==> Get(Apply(o, opt), f) == Get(o, f)
  {
  }

  /** `WithOptions(o)` replaces the whole record. */
  lemma WithOptionsReplaces(o: Options, all: Options)
    ensures Apply(o, WithOptions(all)) == all
  {
  }

  /** Loading nothing gives the zero record. */
  lemma LoadNothing()
    ensures LoadOptions([]) == Options(0, 0, false, None, false)
  {
  }

  /** Loading a concatenation is loading the second part on top of the first. */
  function ApplyAll(o: Options, opts: seq<Opt>): (o': Options)
    decreases |opts|
  {
    if opts == [] then o else ApplyAll(Apply(o, opts[0]), opts[1..])
  }

  lemma {:induction false} ApplyAllSnoc(o: Options, opts: seq<Opt>, opt: Opt)
    ensures ApplyAll(o, opts + [opt]) == Apply(ApplyAll(o, opts), opt)
    decreases |opts|
  {
    if opts != [] {
      assert (opts + [opt])[1..] == opts[1..] + [opt];
      ApplyAllSnoc(Apply(o, opts[0]), opts[1..], opt);
    } else {
      assert opts + [opt] == [opt];
    }
  }

  /** The fold is left to right: the first option is applied first. */
  lemma {:induction false} LoadIsLeftToRight(opts: seq<Opt>)
    ensures LoadOptions(opts) == ApplyAll(Zero, opts)
    decreases |opts|
  {
    if opts != [] {
      var init := opts[..|opts| - 1];
      LoadIsLeftToRight(init);
      ApplyAllSnoc(Zero, init, opts[|opts| - 1]);
      assert init + [opts[|opts| - 1]] == opts;
    }
  }

  /** A field nobody writes keeps its zero value. */
  lemma {:induction false} UnwrittenStaysZero(opts: seq<Opt>, f: Field)
    requires forall j :: 0 <= j < |opts| ==> !Writes(opts[j], f)
    ensures Get(LoadOptions(opts), f) == Get(Zero, f)
    decreases |opts|
  {
    if opts != [] {
      var init := opts[..|opts| - 1];
      UnwrittenStaysZero(init, f);
      ApplyFields(LoadOptions(init), opts[|opts| - 1], f);
    }
  }

  /** Last one wins: a field holds what the last option writing it wrote. */
  lemma {:induction false} LastWriterWins(opts: seq<Opt>, f: Field, i: nat)
    requires i < |opts| && Writes(opts[i], f)
    requires forall j :: i < j < |opts| ==> !Writes(opts[j], f)
    ensures Get(LoadOptions(opts), f) == Written(opts[i], f)
    decreases |opts|
  {
    var init := opts[..|opts| - 1];
    ApplyFields(LoadOptions(init), opts[|opts| - 1], f);
    if i < |opts| - 1 {
      LastWriterWins(init, f, i);
    }
  }
}
