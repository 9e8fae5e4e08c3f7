/** The server's own route table: a home page, a JSON user list and a
    static-file route.  The static handler reads the file system, so it is a
    parameter here. */
module Routes {
  import opened Http
  import opened Routing

  const HomePage := "<html><body><h1>Welcome to Rust HTTP Server!</h1></body></html>"
  const UsersJson := "[{\"id\":1,\"name\":\"Alice\"},{\"id\":2,\"name\":\"Bob\"}]"

  /** The home route's handler: the same page for every request. */
  function Home(request: Request): Response {
    OkHtml(HomePage)
  }

  /** The users route's handler: the same JSON document for every request. */
  function Users(request: Request): Response {
    OkJson(UsersJson)
  }

  /** `register_routes`: three registrations, in this order. */
  method RegisterRoutes(router: Router, serveStatic: Handler)
    modifies router
    ensures router.routes
      == old(router.routes)[("GET", "/") := Home][("GET", "/users") := Users][("GET", "/static/") := serveStatic]
  {
    router.AddRoute("GET", "/", Home);
    router.AddRoute("GET", "/users", Users);
    router.AddRoute("GET", "/static/", serveStatic);
  }

  /** The router the server starts with, asked about one request: the three
      registered keys reach their handlers, and every other request --
      another method on a registered path, or a path below "/static/" --
      gets `not_found()`. */
  method Serve(serveStatic: Handler, request: Request) returns (response: Response)
    ensures request.verb == "GET" && request.path == "/" ==> response == OkHtml(HomePage)
    ensures request.verb == "GET" && request.path == "/users" ==> response == OkJson(UsersJson)
    ensures request.verb == "GET" && request.path == "/static/" ==> response == serveStatic(request)
    ensures request.verb != "GET" || request.path !in {"/", "/users", "/static/"} ==> response == NotFound()
  {
    var router := new Router();
    RegisterRoutes(router, serveStatic);
    var key := KeyOf(request);
    ghost var table := router.routes;
    assert table.Keys == {("GET", "/"), ("GET", "/users"), ("GET", "/static/")};
    response := router.HandleRequest(request);
    if key == ("GET", "/") {
      assert table[key] == Home;
    } else if key == ("GET", "/users") {
      assert table[key] == Users;
    } else if key == ("GET", "/static/") {
      assert table[key] == serveStatic;
    }
  }

  /** A file below "/static/" is not served by the static route: the match
      is on the whole path. */
  method StaticFileNotRouted(serveStatic: Handler, headers: Headers, body: string) returns (response: Response)
    ensures response == NotFound()
  {
    response := Serve(serveStatic, Request("GET", "/static/foo.txt", headers, body));
  }
}
