/** The router object of core/core.go: one segment tree per HTTP method, the middleware list
    put in front of every route registered afterwards, and the dispatch of a request.

    The abstract state of a router is `Routes()`, the node arena of each method's tree. The
    pure functions `AfterRegister`, `RegisterError` and `FindRoute` say what registration and
    lookup do to and with it; the methods of `Core` are proved against them. */
module Core {
  import opened Wrappers
  import opened Strings
  import opened Http
  import opened Trie
  import opened Context

  /** The methods `New` creates a tree for. */
  const Methods: set<string> := {"GET", "POST", "PUT", "DELETE"}

  /** The route tables of a router: every method of `Methods` has a tree satisfying the tree
      invariant. */
  predicate RoutesValid(routes: map<string, seq<Node>>) {
    routes.Keys == Methods &&
    forall m :: m in routes ==> WellFormed(routes[m]) && UniqueChildSegments(routes[m])
  }

  /** The route tables of `New`: an empty root per method. */
  function InitialRoutes(): (r: map<string, seq<Node>>)
    ensures RoutesValid(r)
    ensures forall m :: m in r ==> r[m] == [EmptyNode]
  {
    map m | m in Methods :: [EmptyNode]
  }

  /** The error registering `uri` under `verb` reports: a conflict when the tree already
      matches `uri`. */
  function RegisterError(routes: map<string, seq<Node>>, verb: string, uri: string): (r: Option<RouteError>)
    requires RoutesValid(routes) && verb in Methods
    ensures r.Some? <==> Match(routes[verb], Root, uri).Some?
    ensures r.Some? ==> r.value == RouteConflict(uri)
  {
    if Match(routes[verb], Root, uri).Some? then Some(RouteConflict(uri)) else None
  }

  /** The route tables after registering `pipeline` under `verb` and `uri`: `verb`'s tree gets
      the path, unless it conflicts; every other method's tree stays as it was. */
  function AfterRegister(routes: map<string, seq<Node>>, verb: string, uri: string, pipeline: seq<Handler>): (r: map<string, seq<Node>>)
    requires RoutesValid(routes) && verb in Methods
    ensures RoutesValid(r)
    ensures forall m :: m in routes && m != verb ==> r[m] == routes[m]
    ensures RegisterError(routes, verb, uri).Some? ==> r == routes
    ensures RegisterError(routes, verb, uri).None? ==>
              r[verb] == Insert(routes[verb], Root, CanonSegments(uri), pipeline)
  {
    if RegisterError(routes, verb, uri).Some? then routes
    else
      var nodes := Insert(routes[verb], Root, CanonSegments(uri), pipeline);
      InsertKeepsUnique(routes[verb], Root, CanonSegments(uri), pipeline);
      UpdateKeepsValid(routes, verb, nodes);
      routes[verb := nodes]
  }

  lemma UpdateKeepsValid(routes: map<string, seq<Node>>, verb: string, nodes: seq<Node>)
    requires RoutesValid(routes) && verb in Methods
    requires WellFormed(nodes) && UniqueChildSegments(nodes)
    ensures RoutesValid(routes[verb := nodes])
  {
  }

  /** FindRouteByRequest on route tables: the handlers of the path in the tree of the
      upper-cased method, and none for a method without a tree. */
  function FindRoute(routes: map<string, seq<Node>>, request: Request): (r: seq<Handler>)
    requires RoutesValid(routes)
    ensures Upper(request.verb) !in Methods ==> r == []
    ensures Upper(request.verb) in Methods ==> r == FindHandler(routes[Upper(request.verb)], request.path)
  {
    var verb := Upper(request.verb);
    if verb in routes then FindHandler(routes[verb], request.path) else []
  }

  /** The method and the literal segments of the path are matched whatever their ASCII
      case. */
  lemma FindRouteIgnoresCase(routes: map<string, seq<Node>>, r1: Request, r2: Request)
    requires RoutesValid(routes)
    requires EqualIgnoringCase(r1.verb, r2.verb) && SamePath(r1.path, r2.path)
    ensures FindRoute(routes, r1) == FindRoute(routes, r2)
  {
    UpperOfEqualIgnoringCase(r1.verb, r2.verb);
    var verb := Upper(r1.verb);
    if verb in routes {
      FindHandlerIgnoresCase(routes[verb], r1.path, r2.path);
    }
  }

  /** A PATCH request finds no handlers, whatever was registered. */
  lemma PatchIsNotRouted(routes: map<string, seq<Node>>, request: Request)
    requires RoutesValid(routes) && request.verb == "PATCH"
    ensures FindRoute(routes, request) == []
  {
    assert Upper(request.verb) == "PATCH" by {
      forall i | 0 <= i < |request.verb|
        ensures Upper(request.verb)[i] == request.verb[i]
      {
      }
    }
    assert "PATCH" !in Methods;
  }

  /** A new router finds no handlers for any request. */
  lemma NewRouterFindsNothing(request: Request)
    ensures FindRoute(InitialRoutes(), request) == []
  {
    var verb := Upper(request.verb);
    if verb in Methods {
      var (head, tail) := SplitFirst(request.path, '/');
      assert Filter([EmptyNode], EmptyNode.childs, Canon(head)) == [];
    }
  }

  /** A registration that creates the path's final node makes every request for that path,
      in any case, find exactly the registered pipeline. */
  lemma RegisteredRouteIsFound(routes: map<string, seq<Node>>, verb: string, uri: string,
                               pipeline: seq<Handler>, request: Request)
    requires RoutesValid(routes) && verb in Methods
    requires RegisterError(routes, verb, uri).None?
    requires Walk(routes[verb], Root, CanonSegments(uri)).None?
    requires Upper(request.verb) == verb && SamePath(request.path, uri)
    ensures FindRoute(AfterRegister(routes, verb, uri, pipeline), request) == pipeline
  {
    var after := AfterRegister(routes, verb, uri, pipeline);
    AddedRouteResolves(routes[verb], uri, pipeline);
    FindHandlerIgnoresCase(after[verb], request.path, uri);
  }

  /** Registering under one method leaves the lookup of every other method as it was. */
  lemma RegisterKeepsOtherMethods(routes: map<string, seq<Node>>, verb: string, uri: string,
                                  pipeline: seq<Handler>, request: Request)
    requires RoutesValid(routes) && verb in Methods
    requires Upper(request.verb) != verb
    ensures FindRoute(AfterRegister(routes, verb, uri, pipeline), request) == FindRoute(routes, request)
  {
  }

  /** A later registration does not take over a routed path without parameters: a request
      that found a route before finds the same handlers after registering another path under
      its method. */
  lemma RegisterKeepsLiteralRoutes(routes: map<string, seq<Node>>, verb: string, uri: string,
                                   pipeline: seq<Handler>, request: Request)
    requires RoutesValid(routes) && verb in Methods && Labelled(routes[verb])
    requires Upper(request.verb) == verb && LiteralPath(request.path)
    requires Match(routes[verb], Root, request.path).Some?
    ensures FindRoute(AfterRegister(routes, verb, uri, pipeline), request) == FindRoute(routes, request)
  {
    if RegisterError(routes, verb, uri).None? {
      LiteralPathKeepsMatch(routes[verb], uri, pipeline, request.path);
    }
  }

  /** The chain a request's handlers run, as `Next` carries it out: the guarded steps it takes
      on the context and the error it returns. */
  datatype Chain = Chain(steps: seq<Op>, err: Option<string>)

  /** `json.Marshal` of the two strings ServeHTTP answers with. */
  const NotFoundBody: string := "\"NOT FOUND ROUTER\""
  const InnerErrorBody: string := "\"INNER ERROR\""

  /** What ServeHTTP writes for a request whose route holds `handlers`, where `next` gives the
      chain each list of handlers runs. */
  function Dispatch(handlers: seq<Handler>, next: seq<Handler> -> Chain): (r: seq<Event>)
    ensures handlers == [] ==> r == JsonWrites(StatusNotFound, Encoded(NotFoundBody))
    ensures handlers != [] && next(handlers).err.None? ==> r == Run(Fresh, next(handlers).steps).response
    ensures handlers != [] && next(handlers).err.Some? ==>
              r == AfterJson(Run(Fresh, next(handlers).steps), StatusInternalServerError, Encoded(InnerErrorBody)).response
  {
    if handlers == [] then AfterJson(Fresh, StatusNotFound, Encoded(NotFoundBody)).response
    else
      var chain := next(handlers);
      var ran := Run(Fresh, chain.steps);
      if chain.err.Some? then AfterJson(ran, StatusInternalServerError, Encoded(InnerErrorBody)).response
      else ran.response
  }

  /** A chain that fails without a timeout or panic first: everything its JSON calls wrote,
      then the 500 "INNER ERROR" answer. */
  lemma InnerErrorIsReported(handlers: seq<Handler>, next: seq<Handler> -> Chain)
    requires handlers != [] && next(handlers).err.Some? && Execs(next(handlers).steps) == 0
    ensures Dispatch(handlers, next) ==
              AllJsonWrites(next(handlers).steps) + JsonWrites(StatusInternalServerError, Encoded(InnerErrorBody))
  {
    JsonAlwaysWritesBeforeExec(next(handlers).steps);
  }

  /** A chain that fails after a timeout or panic was answered: ServeHTTP's own 500 is
      dropped, and the response is what the chain wrote. */
  lemma InnerErrorAfterStopIsDropped(handlers: seq<Handler>, next: seq<Handler> -> Chain)
    requires handlers != [] && next(handlers).err.Some?
    requires 0 < Execs(next(handlers).steps) < 0x1_0000_0000
    ensures Dispatch(handlers, next) == Run(Fresh, next(handlers).steps).response
  {
    CounterCountsExecs(next(handlers).steps);
    WrapIsZero(Execs(next(handlers).steps));
  }

  /** On a successful chain ServeHTTP adds nothing of its own: with no timeout or panic the
      response is exactly what the chain's JSON calls wrote, and it is the failing chain's
      response without the 500 "INNER ERROR" answer. */
  lemma SuccessAddsNothing(handlers: seq<Handler>, next: seq<Handler> -> Chain)
    requires handlers != [] && next(handlers).err.None?
    ensures Execs(next(handlers).steps) == 0 ==> Dispatch(handlers, next) == AllJsonWrites(next(handlers).steps)
    ensures Execs(next(handlers).steps) == 0 ==>
              Dispatch(handlers, next) + JsonWrites(StatusInternalServerError, Encoded(InnerErrorBody)) ==
              Dispatch(handlers, (hs: seq<Handler>) => Chain(next(hs).steps, Some("")))
  {
    if Execs(next(handlers).steps) == 0 {
      JsonAlwaysWritesBeforeExec(next(handlers).steps);
    }
  }

  /** Two updates of `before` at the key `verb` to the same value are equal. */
  lemma UpdatedOnce(before: map<string, seq<Node>>, now: map<string, seq<Node>>,
                    after: map<string, seq<Node>>, verb: string)
    requires now.Keys == before.Keys == after.Keys && verb in before && now[verb] == after[verb]
    requires forall m :: m in now && m != verb ==> now[m] == before[m]
    requires forall m :: m in after && m != verb ==> after[m] == before[m]
    ensures now == after
  {
  }

  lemma EmptyRoutesAreInitial(routes: map<string, seq<Node>>)
    requires routes.Keys == Methods && forall m :: m in routes ==> routes[m] == [EmptyNode]
    ensures routes == InitialRoutes()
  {
  }

  /** The router New builds: one distinct tree per method. */
  lemma FourTrees(router: map<string, Tree>, get: Tree, post: Tree, put: Tree, delete: Tree)
    requires router == map["GET" := get, "POST" := post, "PUT" := put, "DELETE" := delete]
    requires get != post && get != put && get != delete && post != put && post != delete && put != delete
    ensures router.Keys == Methods
    ensures forall m :: m in router ==> router[m] in {get, post, put, delete}
    ensures forall m1, m2 :: m1 in router && m2 in router && m1 != m2 ==> router[m1] != router[m2]
  {
  }

  class Core {
    const router: map<string, Tree>
    var middlewares: seq<Handler>

    ghost predicate Valid()
      reads this, router.Values
    {
      router.Keys == Methods &&
      (forall m :: m in router ==> router[m].Valid()) &&
      (forall m1, m2 :: m1 in router && m2 in router && m1 != m2 ==> router[m1] != router[m2])
    }

    /** The node arena of each method's tree. */
    function Routes(): (r: map<string, seq<Node>>)
      reads this, router.Values
      ensures r.Keys == router.Keys
      ensures forall m :: m in router ==> r[m] == router[m].nodes
    {
      map m | m in router :: router[m].nodes
    }

    lemma ValidRoutes()
      requires Valid()
      ensures RoutesValid(Routes())
    {
    }

    /** Every tree of the router has node labels, so later registrations keep its
        parameter-free routes (`RegisterKeepsLiteralRoutes`). */
    lemma LabelledRoutes()
      requires Valid()
      ensures forall m :: m in Routes() ==> Labelled(Routes()[m])
    {
    }

    /** New: the four trees, each an empty root, and no middlewares. */
    constructor ()
      ensures Valid()
      ensures Routes() == InitialRoutes()
      ensures middlewares == []
    {
      var get := new Tree();
      var post := new Tree();
      var put := new Tree();
      var delete := new Tree();
      router := map["GET" := get, "POST" := post, "PUT" := put, "DELETE" := delete];
      middlewares := [];
      new;
      FourTrees(router, get, post, put, delete);
      EmptyRoutesAreInitial(Routes());
    }

    /** Use: the middlewares are appended, after those already there. */
    method Use(hs: seq<Handler>)
      requires Valid()
      modifies this
      ensures Valid()
      ensures middlewares == old(middlewares) + hs
      ensures Routes() == old(Routes())
    {
      middlewares := middlewares + hs;
    }

    /** The body Get, Post, Put and Delete share: the pipeline of the current middlewares and
        `hs` is registered in `verb`'s tree, and only there. */
    method Register(verb: string, uri: string, hs: seq<Handler>) returns (err: Option<RouteError>)
      requires Valid() && verb in Methods
      modifies router[verb]
      ensures Valid()
      ensures err == RegisterError(old(Routes()), verb, uri)
      ensures Routes() == AfterRegister(old(Routes()), verb, uri, middlewares + hs)
    {
      ValidRoutes();
      ghost var before := Routes();
      var pipeline := middlewares + hs;
      var tree := router[verb];
      err := tree.AddRouter(uri, pipeline);
      assert forall m :: m in router && m != verb ==> router[m] != tree;
      forall m | m in router ensures router[m].Valid() {
        if m != verb {
          assert router[m].nodes == old(router[m].nodes);
          assert ValidTree(old(router[m].nodes));
        }
      }
      ghost var after := AfterRegister(before, verb, uri, pipeline);
      ghost var now := Routes();
      assert now[verb] == after[verb];
      assert forall m :: m in now && m != verb ==> now[m] == before[m];
      UpdatedOnce(before, now, after, verb);
    }

    /** Get; the reported conflict stands for the `log.Fatal` in the Go code. */
    method Get(uri: string, hs: seq<Handler>) returns (err: Option<RouteError>)
      requires Valid()
      modifies router["GET"]
      ensures Valid()
      ensures err == RegisterError(old(Routes()), "GET", uri)
      ensures Routes() == AfterRegister(old(Routes()), "GET", uri, middlewares + hs)
    {
      err := Register("GET", uri, hs);
    }

    method Post(uri: string, hs: seq<Handler>) returns (err: Option<RouteError>)
      requires Valid()
      modifies router["POST"]
      ensures Valid()
      ensures err == RegisterError(old(Routes()), "POST", uri)
      ensures Routes() == AfterRegister(old(Routes()), "POST", uri, middlewares + hs)
    {
      err := Register("POST", uri, hs);
    }

    method Put(uri: string, hs: seq<Handler>) returns (err: Option<RouteError>)
      requires Valid()
      modifies router["PUT"]
      ensures Valid()
      ensures err == RegisterError(old(Routes()), "PUT", uri)
      ensures Routes() == AfterRegister(old(Routes()), "PUT", uri, middlewares + hs)
    {
      err := Register("PUT", uri, hs);
    }

    method Delete(uri: string, hs: seq<Handler>) returns (err: Option<RouteError>)
      requires Valid()
      modifies router["DELETE"]
      ensures Valid()
      ensures err == RegisterError(old(Routes()), "DELETE", uri)
      ensures Routes() == AfterRegister(old(Routes()), "DELETE", uri, middlewares + hs)
    {
      err := Register("DELETE", uri, hs);
    }

    /** FindRouteByRequest: the lookup `FindRoute` on the router's trees. */
    function FindRouteByRequest(request: Request): (r: seq<Handler>)
      requires Valid()
      reads this, router.Values
      ensures r == FindRoute(Routes(), request)
    {
      var verb := Upper(request.verb);
      if verb in router then FindHandler(router[verb].nodes, request.path) else []
    }

    /** ServeHTTP: the response a request receives, where `next` gives the chain its handlers
        run. The router is not changed. */
    method ServeHTTP(request: Request, next: seq<Handler> -> Chain) returns (response: seq<Event>)
      requires Valid()
      ensures response == Dispatch(FindRouteByRequest(request), next)
    {
      var handlers := FindRouteByRequest(request);
      response := Serve(request, handlers, next);
    }
  }

  /** The body of ServeHTTP once the route is looked up: a fresh context answers 404 when the
      route holds no handlers, and otherwise runs the chain and answers 500 when it fails. */
  method Serve(request: Request, handlers: seq<Handler>, next: seq<Handler> -> Chain) returns (response: seq<Event>)
    ensures response == Dispatch(handlers, next)
  {
    var ctx := new Context(Some(request));
    if handlers == [] {
      var _ := ctx.JSON(StatusNotFound, Encoded(NotFoundBody));
      return ctx.response;
    }
    var chain := next(handlers);
    ctx.Perform(chain.steps);
    if chain.err.Some? {
      var _ := ctx.JSON(StatusInternalServerError, Encoded(InnerErrorBody));
    }
    response := ctx.response;
  }
}
