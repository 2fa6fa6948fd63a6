/** The route table of `HttpServer` (src/server.rs:11-63) and the mapping
    of the request's method token onto it (src/server.rs:151-164). The
    table itself is an immutable map here; the lock around it and its
    poisoning are modelled in module Server. */
module Routing {
  import opened Wrappers
  import opened Parser

  /** `HttpMethod` (src/server.rs:12-19). */
  datatype Method = ANY | GET | POST | HEAD | DELETE | PATCH

  /** `HttpRoute` (src/server.rs:22): a method and an exact path. */
  datatype Route = Route(verb: Method, path: string)

  /** A handler turns the parsed request into the response body text. */
  type Handler = Request -> string

  type RouteTable = map<Route, Handler>

  /** The table of `HttpServer::new` (src/server.rs:33-39). */
  const EmptyTable: RouteTable := map[]

  /** `HashMap::insert` on the key (m, path): adds or overwrites that one
      entry and leaves every other entry as it was. */
  function Register(table: RouteTable, m: Method, path: string, h: Handler): (r: RouteTable)
    ensures Route(m, path) in r && r[Route(m, path)] == h
    ensures r.Keys == table.Keys + {Route(m, path)}
    ensures forall k :: k in table && k != Route(m, path) ==> r[k] == table[k]
  {
    table[Route(m, path) := h]
  }

  /** `HttpServer::any` (src/server.rs:52-55). */
  function Any(table: RouteTable, path: string, h: Handler): (r: RouteTable)
    ensures Route(ANY, path) in r && r[Route(ANY, path)] == h
    ensures r.Keys == table.Keys + {Route(ANY, path)}
    ensures forall k :: k in table && k != Route(ANY, path) ==> r[k] == table[k]
  {
    Register(table, ANY, path, h)
  }

  /** `HttpServer::get` (src/server.rs:56-59). */
  function Get(table: RouteTable, path: string, h: Handler): (r: RouteTable)
    ensures Route(GET, path) in r && r[Route(GET, path)] == h
    ensures r.Keys == table.Keys + {Route(GET, path)}
    ensures forall k :: k in table && k != Route(GET, path) ==> r[k] == table[k]
  {
    Register(table, GET, path, h)
  }

  /** `HttpServer::post` (src/server.rs:60-63). */
  function Post(table: RouteTable, path: string, h: Handler): (r: RouteTable)
    ensures Route(POST, path) in r && r[Route(POST, path)] == h
    ensures r.Keys == table.Keys + {Route(POST, path)}
    ensures forall k :: k in table && k != Route(POST, path) ==> r[k] == table[k]
  {
    Register(table, POST, path, h)
  }

  /** The method token of the request line as a routing method
      (src/server.rs:151-158): only "POST" is told apart, every other token
      (HEAD, DELETE, PATCH, lower-case "post", garbage) routes as GET, and
      ANY never comes out. */
  function MethodOf(token: string): (m: Method)
    ensures m == POST <==> token == "POST"
    ensures m != POST ==> m == GET
  {
    if token == "GET" then GET
    else if token == "POST" then POST
    else GET
  }

  /** `HashMap::get` on the exact key (src/server.rs:160-164); `None` is
      where the source's `unwrap` panics. */
  function Lookup(table: RouteTable, m: Method, path: string): (r: Option<Handler>)
    ensures r.Some? <==> Route(m, path) in table
    ensures r.Some? ==> r.value == table[Route(m, path)]
  {
    if Route(m, path) in table then Some(table[Route(m, path)]) else None
  }

  /** Registration and lookup: a lookup after registering finds the new
      handler on exactly the registered key and sees the old table on
      every other key. */
  lemma LookupAfterRegister(table: RouteTable, m: Method, p: string, h: Handler, m': Method, p': string)
    ensures Lookup(Register(table, m, p, h), m', p') ==
      if m == m' && p == p' then Some(h) else Lookup(table, m', p')
  {
  }

  /** Registering for GET does not make the path answer POST requests, and
      vice versa: methods never cross-match. */
  lemma NoCrossMethodMatch(table: RouteTable, p: string, h: Handler)
    ensures Lookup(Get(table, p, h), POST, p) == Lookup(table, POST, p)
    ensures Lookup(Post(table, p, h), GET, p) == Lookup(table, GET, p)
  {
    LookupAfterRegister(table, GET, p, h, POST, p);
    LookupAfterRegister(table, POST, p, h, GET, p);
  }

  /** A route registered with `any` is never reached: the method of every
      request is GET or POST, so the ANY entry is invisible to lookup. */
  lemma AnyRouteUnreachable(table: RouteTable, p: string, h: Handler, token: string, path: string)
    ensures Lookup(Any(table, p, h), MethodOf(token), path) == Lookup(table, MethodOf(token), path)
  {
    LookupAfterRegister(table, ANY, p, h, MethodOf(token), path);
  }

  /** Path matching is byte-for-byte: a path that differs in any way, a
      trailing slash included, misses. */
  lemma PathsMatchExactly(table: RouteTable, m: Method, p: string, h: Handler, p': string)
    requires p' != p && Route(m, p') !in table
    ensures Lookup(Register(table, m, p, h), m, p') == None
  {
  }
}
