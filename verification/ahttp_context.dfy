/** The request context of the `ahttp` server: request and response handles, the
    current handler and a key/value store, reused across requests through a pool. */
module AHttpContext {
  import opened Base

  /** A value stored in the context; Go stores `interface{}`. */
  type Value = nat

  /** The parts of an `*http.Request` the server looks at. */
  datatype Request = Request(httpMethod: string, rawPath: string, path: string)

  /** The parts of an `http.ResponseWriter` the middlewares change: the header map and
      the status code once written. */
  datatype Response = Response(header: map<string, string>, status: Option<int>)

  /** `Context`, generic in the handler type so that the server can store its own. */
  datatype Context<H> = Context(
    request: Option<Request>,
    response: Option<Response>,
    query: Option<map<string, seq<string>>>,
    handler: Option<H>,
    store: Option<map<string, Value>>)

  /** A handler run: the context afterwards, the returned error, and the endpoints
      that ran, in order. */
  datatype Served<H> = Served(ctx: Context<H>, outcome: Outcome, calls: seq<nat>)

  /** `newContext(r, w)`: every other field is nil. */
  function NewContext<H>(r: Option<Request>, w: Option<Response>): (c: Context<H>)
    ensures c.request == r && c.response == w
    ensures c.query == None && c.handler == None && c.store == None
  {
    Context(r, w, None, None, None)
  }

  /** `Get(key)`: a nil store and a missing key both read as nil. */
  function Get<H>(c: Context<H>, key: string): (v: Option<Value>)
    ensures v.Some? <==> c.store.Some? && key in c.store.value
    ensures v.Some? ==> v.value == c.store.value[key]
  {
    if c.store.Some? && key in c.store.value then Some(c.store.value[key]) else None
  }

  /** `Set(key, val)`: creates the store on first use. */
  function Set<H>(c: Context<H>, key: string, val: Value): (c': Context<H>)
    ensures Get(c', key) == Some(val)
    ensures forall k :: k != key ==> Get(c', k) == Get(c, k)
    ensures c'.request == c.request && c'.response == c.response
    ensures c'.query == c.query && c'.handler == c.handler
  {
    var store := if c.store.None? then map[] else c.store.value;
    c.(store := Some(store[key := val]))
  }

  /** `Handler()`. */
  function Handler<H>(c: Context<H>): (h: Option<H>)
  {
    c.handler
  }

  /** `SetHandler(h)`: only the handler changes. */
  function SetHandler<H>(c: Context<H>, h: Option<H>): (c': Context<H>)
    ensures Handler(c') == h
    ensures c'.request == c.request && c'.response == c.response
    ensures c'.query == c.query && c'.store == c.store
  {
    c.(handler := h)
  }

  /** `Reset(r, w)`: installs the new request and response and clears the rest. */
  function Reset<H>(c: Context<H>, r: Option<Request>, w: Option<Response>): (c': Context<H>)
    ensures c' == NewContext(r, w)
  {
    Context(r, w, None, None, None)
  }

  /** After `Reset`, no key reads back a value and no handler is set, whatever the
      context held before. */
  lemma ResetForgets<H>(c: Context<H>, r: Option<Request>, w: Option<Response>, key: string)
    ensures Get(Reset(c, r, w), key) == None
    ensures Handler(Reset(c, r, w)) == None
  {
  }

  /** A fresh context reads nil for every key. */
  lemma GetBeforeSet<H>(r: Option<Request>, w: Option<Response>, key: string)
    ensures Get(NewContext<H>(r, w), key) == None
  {
  }

  /** `c.Response().Header().Set(key, value)`; a nil response panics. */
  function SetHeader<H>(c: Context<H>, key: string, value: string): (r: Result<Context<H>>)
    ensures c.response.None? <==> r.Fault?
    ensures !r.Err?
    ensures r.Ok? ==> r.value.response.Some? && r.value.response.value.header == c.response.value.header[key := value]
    ensures r.Ok? ==> r.value.response.value.status == c.response.value.status
    ensures r.Ok? ==> r.value.request == c.request && r.value.handler == c.handler && r.value.store == c.store
  {
    if c.response.None? then Fault
    else
      var w := c.response.value;
      Ok(c.(response := Some(w.(header := w.header[key := value]))))
  }

  /** `c.Response().WriteHeader(code)`: the server's response records the code, a later
      call overwriting an earlier one. A nil response panics. */
  function WriteHeader<H>(c: Context<H>, code: int): (r: Result<Context<H>>)
    ensures c.response.None? <==> r.Fault?
    ensures !r.Err?
    ensures r.Ok? ==>
      && r.value.response.Some?
      && r.value.response.value.header == c.response.value.header
      && r.value.response.value.status == Some(code)
    ensures r.Ok? ==> r.value.request == c.request && r.value.handler == c.handler && r.value.store == c.store
  {
    if c.response.None? then Fault
    else Ok(c.(response := Some(c.response.value.(status := Some(code)))))
  }
}
