/** The exact-match router: a table from (method, path) to a handler,
    consulted once per request, with `not_found()` as the fallback. */
module Routing {
  import opened Http

  /** The key a route is registered under: the request method and path. */
  type RouteKey = (string, string)

  /** A handler is any total function from requests to responses. */
  type Handler = Request -> Response

  /** The key a request is looked up under. */
  function KeyOf(request: Request): RouteKey {
    (request.verb, request.path)
  }

  class Router {
    var routes: map<RouteKey, Handler>

    /** `Router::new`: the table is empty. */
    constructor()
      ensures routes == map[]
    {
      routes := map[];
    }

    /** `handle_request`: the handler registered under exactly the request's
        method and path, applied to the request; `not_found()` when there is
        none.  It only reads the table. */
    function HandleRequest(request: Request): (response: Response)
      reads this
      ensures KeyOf(request) in routes ==> response == routes[KeyOf(request)](request)
      ensures KeyOf(request) !in routes ==> response == NotFound()
    {
      if KeyOf(request) in routes then routes[KeyOf(request)](request) else NotFound()
    }

    /** `add_route`: the key now maps to the handler, replacing whatever was
        registered under it; every other key keeps its handler, so every
        other request is answered as before. */
    method AddRoute(verb: string, path: string, handler: Handler)
      modifies this
      ensures routes == old(routes)[(verb, path) := handler]
      ensures forall request :: KeyOf(request) == (verb, path) ==> HandleRequest(request) == handler(request)
      ensures forall request :: KeyOf(request) != (verb, path) ==> HandleRequest(request) == old(HandleRequest(request))
    {
      routes := routes[(verb, path) := handler];
    }
  }

  /** A fresh router answers every request with `not_found()`. */
  method FreshRouterNotFound(request: Request) returns (response: Response)
    ensures response == NotFound()
  {
    var router := new Router();
    response := router.HandleRequest(request);
  }

  /** Two registrations under the same key on a fresh router: only the
      second handler is ever called for that key, and other keys are still
      unrouted. */
  method LastRegistrationWins(verb: string, path: string, first: Handler, second: Handler, request: Request)
    returns (response: Response)
    ensures KeyOf(request) == (verb, path) ==> response == second(request)
    ensures KeyOf(request) != (verb, path) ==> response == NotFound()
  {
    var router := new Router();
    router.AddRoute(verb, path, first);
    router.AddRoute(verb, path, second);
    response := router.HandleRequest(request);
  }
}
