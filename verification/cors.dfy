/** The CORS middleware: it always sets three fixed Access-Control-Allow-* headers,
    answers a preflight OPTIONS request itself with 204, and hands every other request
    to the next handler. */
module Cors {
  import opened Base
  import opened AHttpContext

  const AllowOrigin := "Access-Control-Allow-Origin"
  const AllowMethods := "Access-Control-Allow-Methods"
  const AllowHeaders := "Access-Control-Allow-Headers"
  const StatusNoContent := 204

  /** The header map after the middleware's three `Set` calls. */
  function WithCorsHeaders(header: map<string, string>): (h: map<string, string>)
    ensures h.Keys == header.Keys + {AllowOrigin, AllowMethods, AllowHeaders}
    ensures h[AllowOrigin] == "*"
    ensures h[AllowMethods] == "GET, POST, OPTIONS"
    ensures h[AllowHeaders] == "Content-Type, Authorization"
    ensures forall k :: k in header && k !in {AllowOrigin, AllowMethods, AllowHeaders} ==>
      k in h && h[k] == header[k]
  {
    header[AllowOrigin := "*"][AllowMethods := "GET, POST, OPTIONS"][AllowHeaders := "Content-Type, Authorization"]
  }

  /** The context after the three header writes; a nil response panics on the first. */
  function SetCorsHeaders<H>(c: Context<H>): (r: Result<Context<H>>)
    ensures c.response.None? <==> r.Fault?
    ensures !r.Err?
    ensures r.Ok? ==> r.value == c.(response := Some(c.response.value.(header := WithCorsHeaders(c.response.value.header))))
  {
    var c1 := SetHeader(c, AllowOrigin, "*");
    if c1.Fault? then Fault
    else
      var c2 := SetHeader(c1.value, AllowMethods, "GET, POST, OPTIONS");
      if c2.Fault? then Fault
      else SetHeader(c2.value, AllowHeaders, "Content-Type, Authorization")
  }

  /** `CORS()(next)(c)`. A panic leaves the context as it was when the panic struck,
      which no caller observes. */
  function Cors<H>(c: Context<H>, next: Context<H> -> Served<H>): (s: Served<H>)
  {
    var c1 := SetCorsHeaders(c);
    if !c1.Ok? then Served(c, Panic, [])
    else if c1.value.request.None? then Served(c1.value, Panic, [])
    else if c1.value.request.value.httpMethod == "OPTIONS" then
      var c2 := WriteHeader(c1.value, StatusNoContent);
      if c2.Ok? then Served(c2.value, Success, []) else Served(c1.value, Panic, [])
    else next(c1.value)
  }

  /** The context the middleware hands on: the request's own with the CORS headers. */
  function Decorated<H>(c: Context<H>): (d: Context<H>)
    requires c.response.Some?
    ensures d.response.Some? && d.response.value.status == c.response.value.status
    ensures d.request == c.request && d.handler == c.handler && d.store == c.store
  {
    c.(response := Some(c.response.value.(header := WithCorsHeaders(c.response.value.header))))
  }

  /** A preflight request is answered with 204 and nil, the headers are set, and the
      next handler never runs. */
  lemma PreflightShortCircuits<H>(c: Context<H>, next: Context<H> -> Served<H>)
    requires c.response.Some? && c.request.Some? && c.request.value.httpMethod == "OPTIONS"
    ensures var s := Cors(c, next);
      && s.outcome == Success
      && s.calls == []
      && s.ctx.response.Some?
      && s.ctx.response.value.status == Some(StatusNoContent)
      && s.ctx.response.value.header == WithCorsHeaders(c.response.value.header)
  {
  }

  /** Any other request gets exactly what the next handler returns, run once on the
      context that already carries the three headers. */
  lemma OtherMethodsPassThrough<H>(c: Context<H>, next: Context<H> -> Served<H>)
    requires c.response.Some? && c.request.Some? && c.request.value.httpMethod != "OPTIONS"
    ensures Cors(c, next) == next(Decorated(c))
  {
  }

  /** A nil response or request panics before any handler runs. */
  lemma NilHandlesPanic<H>(c: Context<H>, next: Context<H> -> Served<H>)
    requires c.response.None? || c.request.None?
    ensures Cors(c, next).outcome == Panic && Cors(c, next).calls == []
  {
  }
}
