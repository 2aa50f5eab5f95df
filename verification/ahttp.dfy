/** The `ahttp` server's dispatch: middleware composition, the path a request is routed
    by, the not-found fallback, and one request served on a pooled context. Handlers and
    middlewares are Go closures; here they are descriptions run by an interpreter whose
    endpoint and custom-middleware behaviour is a parameter. */
module AHttp {
  import opened Base
  import opened AHttpContext
  import Cors

  /** A `MiddlewareFunc`: the CORS middleware, or one supplied by the application. */
  datatype Middleware = CorsMiddleware | Custom(id: nat)

  /** A `HandlerFunc`: an application endpoint, `NotFoundHandler`, or a handler wrapped
      by a middleware. */
  datatype Handler = Endpoint(id: nat) | NotFound | Wrapped(m: Middleware, next: Handler)

  /** `ErrNotFound`, as its `Error()` method prints it. */
  const ErrNotFound := Error("code=404, message=Not Found")

  /** Reference composition: the first middleware listed is the outermost. */
  function Nest(h: Handler, ms: seq<Middleware>): (r: Handler)
    decreases |ms|
  {
    if ms == [] then h else Wrapped(ms[0], Nest(h, ms[1..]))
  }

  /** The loop of `applyMiddleware` from index `i - 1` down to 0. */
  function ApplyDown(h: Handler, ms: seq<Middleware>, i: nat): (r: Handler)
    requires i <= |ms|
    decreases i
  {
    if i == 0 then h else ApplyDown(Wrapped(ms[i - 1], h), ms, i - 1)
  }

  /** `applyMiddleware(h, middleware...)`. */
  function ApplyMiddleware(h: Handler, ms: seq<Middleware>): (r: Handler)
  {
    ApplyDown(h, ms, |ms|)
  }

  lemma {:induction false} ApplyDownNests(h: Handler, ms: seq<Middleware>, i: nat)
    requires i <= |ms|
    ensures ApplyDown(Nest(h, ms[i..]), ms, i) == Nest(h, ms)
    decreases i
  {
    if i > 0 {
      assert ms[i - 1..] == [ms[i - 1]] + ms[i..];
      assert Wrapped(ms[i - 1], Nest(h, ms[i..])) == Nest(h, ms[i - 1..]);
      ApplyDownNests(h, ms, i - 1);
    } else {
      assert ms[0..] == ms;
    }
  }

  /** `applyMiddleware(h, m1, …, mk)` is `m1(m2(…mk(h)))`; with no middleware it is `h`. */
  lemma ApplyIsNest(h: Handler, ms: seq<Middleware>)
    ensures ApplyMiddleware(h, ms) == Nest(h, ms)
    ensures ms == [] ==> ApplyMiddleware(h, ms) == h
  {
    assert ms[|ms|..] == [];
    ApplyDownNests(h, ms, |ms|);
  }

  /** Composing two lists is nesting the second inside the first. */
  lemma {:induction false} NestAppend(h: Handler, a: seq<Middleware>, b: seq<Middleware>)
    ensures Nest(h, a + b) == Nest(Nest(h, b), a)
    decreases |a|
  {
    if a != [] {
      assert (a + b)[0] == a[0] && (a + b)[1..] == a[1..] + b;
      NestAppend(h, a[1..], b);
    } else {
      assert a + b == b;
    }
  }

  /** A server reduced to its list of server-level middleware. */
  datatype Server = Server(middleware: seq<Middleware>)

  /** `Use(middleware...)`: appends, so later middleware runs inside earlier. */
  function Use(s: Server, ms: seq<Middleware>): (s': Server)
    ensures |s'.middleware| == |s.middleware| + |ms|
    ensures s'.middleware[..|s.middleware|] == s.middleware
    ensures s'.middleware[|s.middleware|..] == ms
  {
    Server(s.middleware + ms)
  }

  /** Middleware added by a later `Use` wraps the handler inside the earlier ones. */
  lemma UseNestsInside(s: Server, ms: seq<Middleware>, h: Handler)
    ensures ApplyMiddleware(h, Use(s, ms).middleware) == ApplyMiddleware(ApplyMiddleware(h, ms), s.middleware)
  {
    ApplyIsNest(h, s.middleware + ms);
    ApplyIsNest(h, ms);
    ApplyIsNest(Nest(h, ms), s.middleware);
    NestAppend(h, s.middleware, ms);
  }

  /** The closure `add` registers: the handler with the route's own middleware. */
  function RouteHandler(h: Handler, ms: seq<Middleware>): (r: Handler)
  {
    ApplyMiddleware(h, ms)
  }

  /** What a request runs: the server's middleware outermost, then the route's, then
      the endpoint. */
  lemma ServerWrapsRoute(s: Server, h: Handler, routeMs: seq<Middleware>)
    ensures ApplyMiddleware(RouteHandler(h, routeMs), s.middleware) == Nest(h, s.middleware + routeMs)
  {
    ApplyIsNest(h, routeMs);
    ApplyIsNest(Nest(h, routeMs), s.middleware);
    NestAppend(h, s.middleware, routeMs);
  }

  /** `getPath(r)`: the raw (escaped) path when the URL has one, else the decoded path. */
  function GetPath(r: Request): (p: string)
    ensures r.rawPath != "" ==> p == r.rawPath
    ensures r.rawPath == "" ==> p == r.path
  {
    if r.rawPath == "" then r.path else r.rawPath
  }

  /** The behaviour of the closures the model does not see: an endpoint's effect on the
      context and its returned error, and what a custom middleware makes of its next
      handler. */
  datatype Env = Env(
    endpoint: (nat, Context<Handler>) -> (Context<Handler>, Outcome),
    custom: (nat, Context<Handler> -> Served<Handler>) -> (Context<Handler> -> Served<Handler>))

  /** Calling a handler on a context. */
  function Run(h: Handler, env: Env, c: Context<Handler>): (s: Served<Handler>)
    decreases h
  {
    match h
    case Endpoint(id) =>
      var (c', o) := env.endpoint(id, c);
      Served(c', o, [id])
    case NotFound => Served(c, Failure(ErrNotFound), [])
    case Wrapped(CorsMiddleware, inner) => Cors.Cors(c, x => Run(inner, env, x))
    case Wrapped(Custom(id), inner) => env.custom(id, x => Run(inner, env, x))(c)
  }

  /** `NotFoundHandler` returns `ErrNotFound` and touches nothing. */
  lemma NotFoundFails(env: Env, c: Context<Handler>)
    ensures Run(NotFound, env, c) == Served(c, Failure(ErrNotFound), [])
  {
  }

  /** The route lookup the server calls with the method and path: a handler (nil when
      nothing matches) and the path parameters. */
  type Finder = (string, string) -> (Option<Handler>, map<string, Value>)

  /** The `for k, v := range params { c.Set(k, v) }` loop on a reset context. */
  function SetParams(c: Context<Handler>, params: map<string, Value>): (c': Context<Handler>)
    requires c.store.None?
    ensures forall k :: Get(c', k) == (if k in params then Some(params[k]) else None)
    ensures c'.request == c.request && c'.response == c.response
    ensures c'.query == c.query && c'.handler == c.handler
  {
    if params == map[] then c else c.(store := Some(params))
  }

  /** One request's exchange: the context put back into the pool (`None` when a handler
      panics, since nothing recovers and the put is never reached), the response
      written, the error the handler chain returned (which the server discards) and the
      endpoints that ran. */
  datatype Exchange = Exchange(pooled: Option<Context<Handler>>, response: Option<Response>, outcome: Outcome, calls: seq<nat>)

  /** The handler the router resolves a request to, `NotFoundHandler` when none. */
  function Resolve(req: Request, find: Finder): (h: Handler)
    ensures find(req.httpMethod, GetPath(req)).0.Some? ==> h == find(req.httpMethod, GetPath(req)).0.value
    ensures find(req.httpMethod, GetPath(req)).0.None? ==> h == NotFound
  {
    var (found, _) := find(req.httpMethod, GetPath(req));
    if found.Some? then found.value else NotFound
  }

  /** The context a request's handler chain starts from. */
  function Prepared(pooled: Context<Handler>, req: Request, w: Response, find: Finder): (c: Context<Handler>)
    ensures c.request == Some(req) && c.response == Some(w) && c.query == None
    ensures c.handler == Some(Resolve(req, find))
  {
    var c := Reset(pooled, Some(req), Some(w));
    var (found, params) := find(req.httpMethod, GetPath(req));
    var c := if found.Some? then SetParams(c, params) else c;
    SetHandler(c, Some(Resolve(req, find)))
  }

  /** `serveHTTP(w, r)` on the pooled context `pooled`. */
  function ServeHTTP(s: Server, pooled: Context<Handler>, req: Request, w: Response, find: Finder, env: Env): (e: Exchange)
  {
    var c := Prepared(pooled, req, w, find);
    var run := Run(ApplyMiddleware(Resolve(req, find), s.middleware), env, c);
    var back := if run.outcome.Panic? then None else Some(Reset(run.ctx, None, None));
    Exchange(back, run.ctx.response, run.outcome, run.calls)
  }

  /** The request runs the resolved handler inside the server middleware. Unless the
      chain panics, the context goes back to the pool empty whatever the handlers did to
      it; a panic leaves it out of the pool. */
  lemma ServeRunsResolved(s: Server, pooled: Context<Handler>, req: Request, w: Response, find: Finder, env: Env)
    ensures var e := ServeHTTP(s, pooled, req, w, find, env);
            var run := Run(Nest(Resolve(req, find), s.middleware), env, Prepared(pooled, req, w, find));
            && e.outcome == run.outcome && e.calls == run.calls && e.response == run.ctx.response
            && (!run.outcome.Panic? ==> e.pooled == Some(NewContext(None, None)))
            && (run.outcome.Panic? ==> e.pooled == None)
  {
    ApplyIsNest(Resolve(req, find), s.middleware);
  }

  /** An endpoint that panics with no middleware around it leaves its context out of
      the pool, while one that returns puts the emptied context back. */
  lemma EndpointPanicSkipsPut(pooled: Context<Handler>, req: Request, w: Response, find: Finder, env: Env, id: nat)
    requires find(req.httpMethod, GetPath(req)).0 == Some(Endpoint(id))
    ensures var e := ServeHTTP(Server([]), pooled, req, w, find, env);
            e.pooled.None? <==> env.endpoint(id, Prepared(pooled, req, w, find)).1 == Panic
  {
    ApplyIsNest(Endpoint(id), []);
  }

  /** A found handler sees exactly the router's parameters in the store. */
  lemma FoundParamsStored(pooled: Context<Handler>, req: Request, w: Response, find: Finder, key: string)
    requires find(req.httpMethod, GetPath(req)).0.Some?
    ensures var params := find(req.httpMethod, GetPath(req)).1;
            Get(Prepared(pooled, req, w, find), key) == if key in params then Some(params[key]) else None
  {
  }

  /** Without a handler the parameters are ignored, and without server middleware the
      request fails with `ErrNotFound` and runs no endpoint. */
  lemma UnroutedNotFound(s: Server, pooled: Context<Handler>, req: Request, w: Response, find: Finder, env: Env, key: string)
    requires find(req.httpMethod, GetPath(req)).0.None?
    ensures Get(Prepared(pooled, req, w, find), key) == None
    ensures s.middleware == [] ==>
      && ServeHTTP(s, pooled, req, w, find, env).outcome == Failure(ErrNotFound)
      && ServeHTTP(s, pooled, req, w, find, env).calls == []
      && ServeHTTP(s, pooled, req, w, find, env).response == Some(w)
  {
    ApplyIsNest(NotFound, s.middleware);
  }

  /** Behind the CORS middleware an unrouted GET still fails with `ErrNotFound`, and its
      response carries the CORS headers. */
  lemma UnroutedBehindCors(pooled: Context<Handler>, req: Request, w: Response, find: Finder, env: Env)
    requires find(req.httpMethod, GetPath(req)).0.None? && req.httpMethod != "OPTIONS"
    ensures var e := ServeHTTP(Server([CorsMiddleware]), pooled, req, w, find, env);
            && e.outcome == Failure(ErrNotFound) && e.calls == []
            && e.response == Some(w.(header := Cors.WithCorsHeaders(w.header)))
  {
    var c := Prepared(pooled, req, w, find);
    ApplyIsNest(NotFound, [CorsMiddleware]);
    assert [CorsMiddleware][1..] == [];
    Cors.OtherMethodsPassThrough(c, x => Run(NotFound, env, x));
  }

  /** A routed endpoint with no middleware runs once, as the only endpoint. */
  lemma RoutedEndpointRuns(pooled: Context<Handler>, req: Request, w: Response, find: Finder, env: Env, id: nat)
    requires find(req.httpMethod, GetPath(req)).0 == Some(Endpoint(id))
    ensures var e := ServeHTTP(Server([]), pooled, req, w, find, env);
            && e.calls == [id]
            && e.outcome == env.endpoint(id, Prepared(pooled, req, w, find)).1
  {
    ApplyIsNest(Endpoint(id), []);
  }
}
