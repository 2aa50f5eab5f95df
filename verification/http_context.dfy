/** The `http` package's request context: path, positional path parameters (names and
    values set separately) and handler, with a reset for reuse. */
module HttpContext {
  import opened Base
  import AHttpContext

  /** A Go slice: a backing array of which the first `len` elements are visible.
      Re-slicing up to the backing array's end is allowed. */
  datatype Slice<T> = Slice(backing: seq<T>, len: nat) {
    ghost predicate Valid() { len <= |backing| }
    function Elements(): (xs: seq<T>)
      requires Valid()
      ensures |xs| == len
    {
      backing[..len]
    }
  }

  /** A slice as a variadic call builds it: length and capacity equal. */
  function FromSeq<T>(xs: seq<T>): (s: Slice<T>)
    ensures s.Valid() && s.Elements() == xs
  {
    Slice(xs, |xs|)
  }

  datatype Context<H> = Context(
    request: Option<AHttpContext.Request>,
    response: Option<AHttpContext.Response>,
    query: Option<map<string, seq<string>>>,
    handler: Option<H>,
    path: string,
    pnames: seq<string>,
    pvalues: Slice<string>)

  ghost predicate Valid<H>(c: Context<H>) {
    c.pvalues.Valid()
  }

  /** `Path()`. */
  function Path<H>(c: Context<H>): (p: string)
  {
    c.path
  }

  /** `SetPath(p)`: only the path changes. */
  function SetPath<H>(c: Context<H>, p: string): (c': Context<H>)
    ensures Path(c') == p
    ensures c' == c.(path := p)
  {
    c.(path := p)
  }

  /** `Handler()`. */
  function Handler<H>(c: Context<H>): (h: Option<H>)
  {
    c.handler
  }

  /** `SetHandler(h)`: only the handler changes. */
  function SetHandler<H>(c: Context<H>, h: Option<H>): (c': Context<H>)
    ensures Handler(c') == h
    ensures c' == c.(handler := h)
  {
    c.(handler := h)
  }

  /** `SetParamNames(names...)`. */
  function SetParamNames<H>(c: Context<H>, names: seq<string>): (c': Context<H>)
    ensures c'.pnames == names && c' == c.(pnames := names)
  {
    c.(pnames := names)
  }

  /** `SetParamValues(values...)`, given the slice the call passes. */
  function SetParamValues<H>(c: Context<H>, values: Slice<string>): (c': Context<H>)
    requires values.Valid()
    ensures Valid(c') || !Valid(c)
    ensures c'.pvalues == values && c' == c.(pvalues := values)
  {
    c.(pvalues := values)
  }

  /** The `Param` loop from index `i` of the names. */
  function ParamFrom<H>(c: Context<H>, name: string, i: nat): (v: string)
    requires Valid(c) && i <= |c.pnames|
    decreases |c.pnames| - i
  {
    if i == |c.pnames| then ""
    else if i < c.pvalues.len && c.pnames[i] == name then c.pvalues.backing[i]
    else ParamFrom(c, name, i + 1)
  }

  /** `Param(name)`. */
  function Param<H>(c: Context<H>, name: string): (v: string)
    requires Valid(c)
  {
    ParamFrom(c, name, 0)
  }

  /** Index `i` names parameter `name` and has a value. */
  ghost predicate Names<H>(c: Context<H>, name: string, i: int) {
    0 <= i < |c.pnames| && i < c.pvalues.len && c.pnames[i] == name
  }

  lemma {:induction false} ParamFromNone<H>(c: Context<H>, name: string, i: nat)
    requires Valid(c) && i <= |c.pnames|
    requires forall j :: i <= j < |c.pnames| ==> !Names(c, name, j)
    ensures ParamFrom(c, name, i) == ""
    decreases |c.pnames| - i
  {
    if i < |c.pnames| {
      assert !Names(c, name, i);
      ParamFromNone(c, name, i + 1);
    }
  }

  lemma {:induction false} ParamFromFirst<H>(c: Context<H>, name: string, i: nat, j: nat)
    requires Valid(c) && i <= j && Names(c, name, j)
    requires forall k :: i <= k < j ==> !Names(c, name, k)
    ensures ParamFrom(c, name, i) == c.pvalues.backing[j]
    decreases j - i
  {
    if i < j {
      assert !Names(c, name, i);
      ParamFromFirst(c, name, i + 1, j);
    }
  }

  /** `Param(name)` is the value at the first index whose name is `name` and that has
      a value, and "" when there is no such index. */
  lemma ParamSpec<H>(c: Context<H>, name: string)
    requires Valid(c)
    ensures (forall j :: 0 <= j < |c.pnames| ==> !Names(c, name, j)) ==> Param(c, name) == ""
    ensures forall j :: Names(c, name, j) && (forall k :: 0 <= k < j ==> !Names(c, name, k)) ==>
      Param(c, name) == c.pvalues.Elements()[j]
  {
    if forall j :: 0 <= j < |c.pnames| ==> !Names(c, name, j) {
      ParamFromNone(c, name, 0);
    }
    forall j | Names(c, name, j) && (forall k :: 0 <= k < j ==> !Names(c, name, k))
      ensures Param(c, name) == c.pvalues.Elements()[j]
    {
      ParamFromFirst(c, name, 0, j);
    }
  }

  /** `ParamValues()`: the first `len(pnames)` values, re-sliced past the visible length
      up to the capacity when there are more names than values; past the capacity the
      slice expression panics. */
  function ParamValues<H>(c: Context<H>): (r: Result<seq<string>>)
    requires Valid(c)
    ensures r.Ok? <==> |c.pnames| <= |c.pvalues.backing|
    ensures !r.Err?
    ensures r.Ok? ==> |r.value| == |c.pnames|
    ensures r.Ok? && |c.pnames| <= c.pvalues.len ==> r.value == c.pvalues.Elements()[..|c.pnames|]
  {
    if |c.pnames| <= |c.pvalues.backing| then Ok(c.pvalues.backing[..|c.pnames|]) else Fault
  }

  /** With as many values as names, set by variadic calls, `ParamValues` is the values
      and `Param` of a distinct name is its positional value. */
  lemma ParamsAgree<H>(c: Context<H>, names: seq<string>, values: seq<string>, i: nat)
    requires |names| == |values| && i < |names|
    requires forall j, k :: 0 <= j < k < |names| ==> names[j] != names[k]
    ensures var c' := SetParamValues(SetParamNames(c, names), FromSeq(values));
            && ParamValues(c') == Ok(values)
            && Param(c', names[i]) == values[i]
  {
    var c' := SetParamValues(SetParamNames(c, names), FromSeq(values));
    assert values[..|names|] == values;
    ParamSpec(c', names[i]);
    assert Names(c', names[i], i);
  }

  /** A variadic value list shorter than the names makes `ParamValues` panic. */
  lemma FewerValuesPanic<H>(c: Context<H>, names: seq<string>, values: seq<string>)
    requires |values| < |names|
    ensures ParamValues(SetParamValues(SetParamNames(c, names), FromSeq(values))) == Fault
  {
  }

  /** `Reset(r, w)`: installs the request and response and clears everything else. */
  function Reset<H>(c: Context<H>, r: Option<AHttpContext.Request>, w: Option<AHttpContext.Response>): (c': Context<H>)
    ensures Valid(c')
    ensures c'.request == r && c'.response == w
    ensures c'.query == None && Handler(c') == None && Path(c') == ""
    ensures c'.pnames == [] && c'.pvalues.Elements() == []
  {
    Context(r, w, None, None, "", [], Slice([], 0))
  }

  /** After `Reset` every parameter reads "" and `ParamValues` is empty. */
  lemma ResetClearsParams<H>(c: Context<H>, name: string)
    ensures Param(Reset(c, None, None), name) == ""
    ensures ParamValues(Reset(c, None, None)) == Ok([])
  {
  }
}
