/** RequestMapping: the path-keyed controller registry and the routing
    decision made for each request. */
module Routing {
  import opened Wrappers
  import opened Request

  /** An application controller, identified by its name and by the path
      its matchedPath() reports. */
  datatype Handler = Handler(name: string, matchedPath: string)

  /** What getController can hand back. */
  datatype Controller =
    | StaticResourceController
    | NotFoundController
    | Registered(handler: Handler)

  datatype RequestMapping = RequestMapping(controllers: map<string, Handler>)

  /** No two handlers report the same matched path. */
  predicate DistinctPaths(handlers: seq<Handler>) {
    forall i, j :: 0 <= i < j < |handlers| ==> handlers[i].matchedPath != handlers[j].matchedPath
  }

  /** Every entry of the registry is keyed by its handler's own matched path. */
  predicate KeyedByMatchedPath(controllers: map<string, Handler>) {
    forall path :: path in controllers ==> controllers[path].matchedPath == path
  }

  /** Collectors.toMap(matchedPath, identity) over the handlers in stream
      order: the first key seen twice throws instead of being overwritten. */
  function Collect(acc: map<string, Handler>, handlers: seq<Handler>): (r: Result<map<string, Handler>, Exception>)
    ensures r.Success? ==> acc.Keys <= r.value.Keys
    ensures r.Failure? ==> r.error.DuplicateKey?
    decreases |handlers|
  {
    if handlers == [] then Success(acc)
    else if handlers[0].matchedPath in acc then Failure(DuplicateKey(handlers[0].matchedPath))
    else Collect(acc[handlers[0].matchedPath := handlers[0]], handlers[1..])
  }

  /** initControllers, on an explicit list of already constructed handlers.
      A failure names a path that two of the handlers report, and a success
      keys every entry by its handler's own matched path. */
  function InitControllers(handlers: seq<Handler>): (r: Result<map<string, Handler>, Exception>)
    ensures r.Failure? ==> r.error.DuplicateKey? && exists i, j ::
              0 <= i < j < |handlers| && handlers[i].matchedPath == r.error.key
              && handlers[j].matchedPath == r.error.key
    ensures r.Success? ==> KeyedByMatchedPath(r.value)
  {
    var r := Collect(map[], handlers);
    if r.Failure? then
      CollectReportsClash(map[], handlers);
      r
    else
      CollectRegistersAll(map[], handlers);
      r
  }

  /** The constructor: fails exactly when initControllers does. */
  function NewRequestMapping(handlers: seq<Handler>): (r: Result<RequestMapping, Exception>)
    ensures r.Failure? <==> InitControllers(handlers).Failure?
    ensures r.Success? ==> r.value.controllers == InitControllers(handlers).value
  {
    var controllers := InitControllers(handlers);
    if controllers.Failure? then Failure(controllers.error)
    else Success(RequestMapping(controllers.value))
  }

  /** getController: a static resource first, then the registry, then the
      not-found controller. `isExist` stands for StaticResourceReader.isExist. */
  function GetController(mapping: RequestMapping, isExist: string -> bool, request: HttpRequest): (c: Controller)
    ensures c == StaticResourceController <==> isExist(GetPath(request))
    ensures c == NotFoundController <==>
              !isExist(GetPath(request)) && GetPath(request) !in mapping.controllers
    ensures c.Registered? <==>
              !isExist(GetPath(request)) && GetPath(request) in mapping.controllers
    ensures c.Registered? ==> c.handler == mapping.controllers[GetPath(request)]
  {
    var path := GetPath(request);
    if isExist(path) then StaticResourceController
    else if path !in mapping.controllers then NotFoundController
    else Registered(mapping.controllers[path])
  }

  /** Some handler's path is already a key of `acc`, or two handlers share a path. */
  predicate PathTaken(acc: map<string, Handler>, handlers: seq<Handler>) {
    (exists i :: 0 <= i < |handlers| && handlers[i].matchedPath in acc) || !DistinctPaths(handlers)
  }

  /** Once the first handler is added, a clash in the rest is a clash in the whole. */
  lemma PathTakenStep(acc: map<string, Handler>, handlers: seq<Handler>)
    requires handlers != [] && handlers[0].matchedPath !in acc
    ensures PathTaken(acc, handlers) <==>
              PathTaken(acc[handlers[0].matchedPath := handlers[0]], handlers[1..])
  {
    var h := handlers[0];
    var rest := handlers[1..];
    var acc' := acc[h.matchedPath := h];
    if PathTaken(acc', rest) {
      if exists i :: 0 <= i < |rest| && rest[i].matchedPath in acc' {
        var i :| 0 <= i < |rest| && rest[i].matchedPath in acc';
        assert handlers[i + 1] == rest[i];
      } else {
        var i, j :| 0 <= i < j < |rest| && rest[i].matchedPath == rest[j].matchedPath;
        assert handlers[i + 1] == rest[i] && handlers[j + 1] == rest[j];
      }
    }
    if PathTaken(acc, handlers) {
      if exists i :: 0 <= i < |handlers| && handlers[i].matchedPath in acc {
        var i :| 0 <= i < |handlers| && handlers[i].matchedPath in acc;
        assert rest[i - 1] == handlers[i];
      } else {
        var i, j :| 0 <= i < j < |handlers| && handlers[i].matchedPath == handlers[j].matchedPath;
        assert rest[j - 1] == handlers[j];
        if i > 0 {
          assert rest[i - 1] == handlers[i];
        }
      }
    }
  }

  /** Collecting fails exactly when a handler's path is already taken,
      either by `acc` or by an earlier handler. */
  lemma {:induction false} CollectFailsIff(acc: map<string, Handler>, handlers: seq<Handler>)
    ensures Collect(acc, handlers).Failure? <==> PathTaken(acc, handlers)
    decreases |handlers|
  {
    if handlers != [] {
      var h := handlers[0];
      if h.matchedPath !in acc {
        CollectFailsIff(acc[h.matchedPath := h], handlers[1..]);
        PathTakenStep(acc, handlers);
      }
    }
  }

  /** The key a failed collection reports is the path of some handler that
      is either already in `acc` or claimed by an earlier handler. */
  lemma {:induction false} CollectReportsClash(acc: map<string, Handler>, handlers: seq<Handler>)
    requires Collect(acc, handlers).Failure?
    ensures var key := Collect(acc, handlers).error.key;
            exists j :: 0 <= j < |handlers| && handlers[j].matchedPath == key
                        && (key in acc || exists i :: 0 <= i < j && handlers[i].matchedPath == key)
    decreases |handlers|
  {
    var h := handlers[0];
    var key := Collect(acc, handlers).error.key;
    if h.matchedPath in acc {
      assert handlers[0].matchedPath == key && key in acc;
    } else {
      var rest := handlers[1..];
      var acc' := acc[h.matchedPath := h];
      CollectReportsClash(acc', rest);
      var j' :| 0 <= j' < |rest| && rest[j'].matchedPath == key
                && (key in acc' || exists i :: 0 <= i < j' && rest[i].matchedPath == key);
      assert handlers[j' + 1] == rest[j'];
      if key !in acc {
        if key == h.matchedPath {
          assert handlers[0].matchedPath == key;
        } else {
          var i' :| 0 <= i' < j' && rest[i'].matchedPath == key;
          assert handlers[i' + 1] == rest[i'];
        }
      }
    }
  }

  /** Building the registry fails exactly when two handlers share a path. */
  lemma InitFailsIffDuplicate(handlers: seq<Handler>)
    ensures InitControllers(handlers).Failure? <==> !DistinctPaths(handlers)
  {
    CollectFailsIff(map[], handlers);
  }

  /** A successful collection keys every handler by its matched path, adds
      no other keys, and keeps the keying invariant of `acc`. */
  lemma {:induction false} CollectRegistersAll(acc: map<string, Handler>, handlers: seq<Handler>)
    requires Collect(acc, handlers).Success?
    requires KeyedByMatchedPath(acc)
    ensures KeyedByMatchedPath(Collect(acc, handlers).value)
    ensures forall i :: 0 <= i < |handlers| ==>
              handlers[i].matchedPath in Collect(acc, handlers).value
              && Collect(acc, handlers).value[handlers[i].matchedPath] == handlers[i]
    ensures forall path :: path in Collect(acc, handlers).value ==>
              path in acc || exists i :: 0 <= i < |handlers| && handlers[i].matchedPath == path
    ensures forall path :: path in acc ==> Collect(acc, handlers).value[path] == acc[path]
    decreases |handlers|
  {
    if handlers != [] {
      var h := handlers[0];
      var rest := handlers[1..];
      var acc' := acc[h.matchedPath := h];
      CollectRegistersAll(acc', rest);
      var m := Collect(acc, handlers).value;
      forall i | 0 <= i < |handlers|
        ensures handlers[i].matchedPath in m && m[handlers[i].matchedPath] == handlers[i]
      {
        if i > 0 {
          assert rest[i - 1] == handlers[i];
        }
      }
      forall path | path in m
        ensures path in acc || exists i :: 0 <= i < |handlers| && handlers[i].matchedPath == path
      {
        if path !in acc' {
          var i :| 0 <= i < |rest| && rest[i].matchedPath == path;
          assert handlers[i + 1] == rest[i];
        }
      }
    }
  }

  /** After construction, registered paths are exactly the handlers' paths
      and each handler is stored under its own matched path. */
  lemma InitRegistersEachHandler(handlers: seq<Handler>)
    requires DistinctPaths(handlers)
    ensures InitControllers(handlers).Success?
    ensures KeyedByMatchedPath(InitControllers(handlers).value)
    ensures forall i :: 0 <= i < |handlers| ==>
              handlers[i].matchedPath in InitControllers(handlers).value
              && InitControllers(handlers).value[handlers[i].matchedPath] == handlers[i]
    ensures forall path :: path in InitControllers(handlers).value <==>
              exists i :: 0 <= i < |handlers| && handlers[i].matchedPath == path
  {
    InitFailsIffDuplicate(handlers);
    CollectRegistersAll(map[], handlers);
  }

  /** Routing against a freshly built registry: a static resource always
      wins; otherwise a path some handler claims goes to that handler, and
      any other path to the not-found controller. */
  lemma RoutesToClaimingHandler(handlers: seq<Handler>, isExist: string -> bool, request: HttpRequest)
    requires DistinctPaths(handlers)
    ensures NewRequestMapping(handlers).Success?
    ensures var c := GetController(NewRequestMapping(handlers).value, isExist, request);
            && (isExist(GetPath(request)) ==> c == StaticResourceController)
            && (!isExist(GetPath(request)) ==>
                  (forall i :: 0 <= i < |handlers| && handlers[i].matchedPath == GetPath(request) ==>
                     c == Registered(handlers[i]))
                  && ((forall i :: 0 <= i < |handlers| ==> handlers[i].matchedPath != GetPath(request)) ==>
                     c == NotFoundController))
  {
    InitRegistersEachHandler(handlers);
  }

  /** The HTTP method plays no part in routing: requests with the same
      path are routed alike. */
  lemma MethodDoesNotRoute(mapping: RequestMapping, isExist: string -> bool, r1: HttpRequest, r2: HttpRequest)
    requires GetPath(r1) == GetPath(r2)
    ensures GetController(mapping, isExist, r1) == GetController(mapping, isExist, r2)
  {
  }

  /** Example: two controllers claiming "/login" make construction fail
      with that key. */
  lemma DuplicatePathExample()
    ensures NewRequestMapping([Handler("LoginController", "/login"), Handler("OtherLogin", "/login")])
              == Failure(DuplicateKey("/login"))
  {
    var hs := [Handler("LoginController", "/login"), Handler("OtherLogin", "/login")];
    assert hs[1..] == [Handler("OtherLogin", "/login")];
    assert Collect(map[], hs) == Collect(map["/login" := hs[0]], hs[1..]);
  }
}
