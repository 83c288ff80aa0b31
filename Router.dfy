/** `pyweb/routing/router.py`: a `Router` walks the segments of a request
    path through a graph of resource objects by attribute lookup, records
    in its `has_arg` field whether the last segment named a callable
    resource or was left over as an argument, and then calls the
    resource's `do_<verb>` method. */
module Router {
  import opened Base
  import opened Text
  import opened Url

  /** An object of the resource graph: the attributes `getattr` can find
      on it, and whether it has `__call__`. A resource's `do_<verb>`
      methods are entries of its attribute map. */
  datatype Resource = Resource(attributes: map<string, Resource>, callable: bool)

  /** What the router reads from a request: the parsed path, the HTTP
      method, and the value (or exception) of its `query_string`. */
  datatype RouteRequest = RouteRequest(objectLocation: seq<string>, verb: string, query: Result<QueryMap>)

  /** The call the router makes: `func(last_segment, query)` on a
      `do_<verb>` attribute, or `target()`. What the call returns is up
      to the application and is not modelled. */
  datatype Response =
    | VerbCall(handler: Resource, segment: string, query: QueryMap)
    | DirectCall(handler: Resource)

  /** What `_find_object` leaves behind: the object it returns and the new
      value of `has_arg`. */
  datatype Located = Located(target: Option<Resource>, hasArg: Option<bool>)

  /** Successive `getattr` from `node` along `path`; a missing attribute is
      reported as "Resource cannot be located". */
  function Walk(node: Resource, path: seq<string>): (r: Result<Resource>)
    ensures r.Err? ==> r.error == ResourceNotLocated
    decreases |path|
  {
    if path == [] then Ok(node)
    else
      var parent :- Walk(node, path[..|path| - 1]);
      var name := path[|path| - 1];
      if name in parent.attributes then Ok(parent.attributes[name]) else Err(ResourceNotLocated)
  }

  /** `_find_object(object_location)` starting from `root` while `has_arg`
      is `hasArg`. */
  function Find(root: Resource, location: seq<string>, hasArg: Option<bool>): Result<Located>
  {
    if location == [] then Ok(Located(None, hasArg))
    else
      var parent :- Walk(root, location[..|location| - 1]);
      var name := location[|location| - 1];
      if name !in parent.attributes then Ok(Located(Some(parent), Some(true)))
      else if parent.attributes[name].callable then Ok(Located(Some(parent.attributes[name]), Some(false)))
      else Err(ResourceNotLocated)
  }

  /** The name of the method that serves `method`. */
  function VerbName(verb: string): string
  {
    "do_" + Lower(verb)
  }

  /** The call at the end of `execute_request`, in Python's order of
      evaluation: the attribute lookup, then the arguments
      `object_location[-1]` and `query_string`, then the call itself. */
  function Call(target: Option<Resource>, hasArg: Option<bool>, req: RouteRequest): Result<Response>
  {
    if hasArg.Some? then
      var verb := VerbName(req.verb);
      if target.None? || verb !in target.value.attributes then Err(NoAttribute(verb))
      else if req.objectLocation == [] then Err(IndexOutOfRange)
      else if req.query.Err? then Err(req.query.error)
      else if !target.value.attributes[verb].callable then Err(NotCallable)
      else Ok(VerbCall(target.value.attributes[verb], req.objectLocation[|req.objectLocation| - 1], req.query.value))
    else CallObject(target)
  }

  /** `target()`: calling None or an object without `__call__` raises
      TypeError. */
  function CallObject(target: Option<Resource>): Result<Response>
  {
    if target.None? || !target.value.callable then Err(NotCallable)
    else Ok(DirectCall(target.value))
  }

  /** The result of `execute_request(req)` and the value of `has_arg`
      afterwards. */
  datatype Outcome = Outcome(result: Result<Response>, hasArg: Option<bool>)

  function Execute(root: Resource, hasArg: Option<bool>, req: RouteRequest): Outcome
  {
    match Find(root, req.objectLocation, hasArg)
    case Err(e) => Outcome(Err(e), hasArg)
    case Ok(l) => Outcome(Call(l.target, l.hasArg, req), l.hasArg)
  }

  /** A sequence of requests served by one router. */
  function ExecuteAll(root: Resource, hasArg: Option<bool>, reqs: seq<RouteRequest>): Option<bool>
    decreases |reqs|
  {
    if reqs == [] then hasArg
    else ExecuteAll(root, Execute(root, hasArg, reqs[0]).hasArg, reqs[1..])
  }

  class Router {
    const root: Resource
    var hasArg: Option<bool>

    constructor(rootObject: Resource)
      ensures root == rootObject && hasArg == None
    {
      root := rootObject;
      hasArg := None;
    }

    /** `_find_object`: walk every segment but the last, then look at the
        last one. */
    method FindObject(location: seq<string>) returns (r: Result<Option<Resource>>)
      modifies this`hasArg
      ensures Find(root, location, old(hasArg)).Err? ==>
                r == Err(ResourceNotLocated) && hasArg == old(hasArg)
      ensures Find(root, location, old(hasArg)).Ok? ==>
                r == Ok(Find(root, location, old(hasArg)).value.target) &&
                hasArg == Find(root, location, old(hasArg)).value.hasArg
    {
      var curr := root;
      for i := 0 to |location|
        invariant Walk(root, location[..i]) == Ok(curr)
        invariant i < |location| || location == []
        invariant hasArg == old(hasArg)
      {
        assert location[..i + 1][..i] == location[..i];
        if i < |location| - 1 {
          if location[i] !in curr.attributes {
            WalkPrefixFails(root, location[..i + 1], location[i + 1..|location| - 1]);
            assert location[..i + 1] + location[i + 1..|location| - 1] == location[..|location| - 1];
            return Err(ResourceNotLocated);
          }
          curr := curr.attributes[location[i]];
        } else {
          assert location[..i] == location[..|location| - 1];
          if location[i] in curr.attributes {
            var child := curr.attributes[location[i]];
            if !child.callable {
              return Err(ResourceNotLocated);
            }
            hasArg := Some(false);
            return Ok(Some(child));
          } else {
            hasArg := Some(true);
            return Ok(Some(curr));
          }
        }
      }
      return Ok(None);
    }

    /** `execute_request(request)`. */
    method ExecuteRequest(req: RouteRequest) returns (r: Result<Response>)
      modifies this`hasArg
      ensures r == Execute(root, old(hasArg), req).result
      ensures hasArg == Execute(root, old(hasArg), req).hasArg
      ensures old(hasArg).Some? ==> hasArg.Some?
    {
      var target :- FindObject(req.objectLocation);
      if hasArg.Some? {
        var verb := "do_" + Lower(req.verb);
        if target.None? || verb !in target.value.attributes {
          return Err(NoAttribute(verb));
        }
        var func := target.value.attributes[verb];
        if req.objectLocation == [] {
          return Err(IndexOutOfRange);
        }
        var segment := req.objectLocation[|req.objectLocation| - 1];
        var query :- req.query;
        if !func.callable {
          return Err(NotCallable);
        }
        return Ok(VerbCall(func, segment, query));
      } else {
        return CallObject(target);
      }
    }
  }

  // ---------------------------------------------------------------------
  // Walking

  /** Walking a path in two steps is walking it at once. */
  lemma {:induction false} WalkAppend(node: Resource, p: seq<string>, q: seq<string>)
    ensures Walk(node, p + q) ==
              if Walk(node, p).Err? then Walk(node, p) else Walk(Walk(node, p).value, q)
    decreases |q|
  {
    if q == [] {
      assert p + q == p;
    } else {
      var pq := p + q;
      assert pq[..|pq| - 1] == p + q[..|q| - 1] && pq[|pq| - 1] == q[|q| - 1];
      WalkAppend(node, p, q[..|q| - 1]);
    }
  }

  /** A lookup that fails part-way makes every longer walk fail. */
  lemma WalkPrefixFails(node: Resource, p: seq<string>, q: seq<string>)
    requires Walk(node, p).Err?
    ensures Walk(node, p + q) == Err(ResourceNotLocated)
  {
    WalkAppend(node, p, q);
  }

  // ---------------------------------------------------------------------
  // _find_object

  /** An empty path finds nothing and leaves `has_arg` alone. */
  lemma FindEmpty(root: Resource, hasArg: Option<bool>)
    ensures Find(root, [], hasArg) == Ok(Located(None, hasArg))
  {
  }

  /** A segment before the last one that names no attribute is an error,
      whatever follows; `has_arg` then keeps its value. */
  lemma FindBrokenPath(root: Resource, path: seq<string>, rest: seq<string>, hasArg: Option<bool>)
    requires Walk(root, path).Err? && rest != []
    ensures Find(root, path + rest, hasArg) == Err(ResourceNotLocated)
    ensures Execute(root, hasArg, RouteRequest(path + rest, "GET", Ok(map[]))).hasArg == hasArg
  {
    var loc := path + rest;
    assert loc[..|loc| - 1] == path + rest[..|rest| - 1];
    WalkPrefixFails(root, path, rest[..|rest| - 1]);
  }

  /** A last segment naming a callable resource returns that resource and
      sets `has_arg` to False. */
  lemma FindCallable(root: Resource, path: seq<string>, name: string, parent: Resource, hasArg: Option<bool>)
    requires Walk(root, path) == Ok(parent)
    requires name in parent.attributes && parent.attributes[name].callable
    ensures Find(root, path + [name], hasArg) == Ok(Located(Some(parent.attributes[name]), Some(false)))
  {
    assert (path + [name])[..|path|] == path;
  }

  /** A last segment naming a resource that is not callable is an error. */
  lemma FindNotCallable(root: Resource, path: seq<string>, name: string, parent: Resource, hasArg: Option<bool>)
    requires Walk(root, path) == Ok(parent)
    requires name in parent.attributes && !parent.attributes[name].callable
    ensures Find(root, path + [name], hasArg) == Err(ResourceNotLocated)
  {
    assert (path + [name])[..|path|] == path;
  }

  /** A last segment naming no attribute is an argument: the parent is
      returned and `has_arg` becomes True. */
  lemma FindArgument(root: Resource, path: seq<string>, name: string, parent: Resource, hasArg: Option<bool>)
    requires Walk(root, path) == Ok(parent)
    requires name !in parent.attributes
    ensures Find(root, path + [name], hasArg) == Ok(Located(Some(parent), Some(true)))
  {
    assert (path + [name])[..|path|] == path;
  }

  /** A successful find of a non-empty path always sets `has_arg` and
      returns an object; only the empty path returns nothing. */
  lemma FindSetsHasArg(root: Resource, location: seq<string>, hasArg: Option<bool>)
    requires Find(root, location, hasArg).Ok?
    ensures Find(root, location, hasArg).value.target.Some? <==> location != []
    ensures location != [] ==> Find(root, location, hasArg).value.hasArg.Some?
  {
  }

  // ---------------------------------------------------------------------
  // execute_request

  /** Once `has_arg` holds a value, no request turns it back into None. */
  lemma HasArgStaysSet(root: Resource, hasArg: Option<bool>, req: RouteRequest)
    ensures hasArg.Some? ==> Execute(root, hasArg, req).hasArg.Some?
    ensures Execute(root, hasArg, req).hasArg.None? ==> hasArg.None?
  {
  }

  /** The same over any number of requests. */
  lemma {:induction false} HasArgStaysSetAll(root: Resource, hasArg: Option<bool>, reqs: seq<RouteRequest>)
    requires hasArg.Some?
    ensures ExecuteAll(root, hasArg, reqs).Some?
    decreases |reqs|
  {
    if reqs != [] {
      HasArgStaysSet(root, hasArg, reqs[0]);
      HasArgStaysSetAll(root, Execute(root, hasArg, reqs[0]).hasArg, reqs[1..]);
    }
  }

  /** `target()` is never reached with an object: while `has_arg` is None
      after the find, the path was empty and the target is None, so
      the call raises TypeError. Every successful request is a
      `do_<verb>` call. */
  lemma NoDirectCall(root: Resource, hasArg: Option<bool>, req: RouteRequest)
    ensures Execute(root, hasArg, req).result.Ok? ==> Execute(root, hasArg, req).result.value.VerbCall?
    ensures Execute(root, hasArg, req).hasArg.None? && Find(root, req.objectLocation, hasArg).Ok? ==>
              Execute(root, hasArg, req).result == Err(NotCallable)
  {
  }

  /** An empty path fails: with a fresh router as TypeError from
      `None()`, afterwards as AttributeError from `getattr(None, ...)`. */
  lemma EmptyPath(root: Resource, hasArg: Option<bool>, verb: string, query: Result<QueryMap>)
    ensures Execute(root, hasArg, RouteRequest([], verb, query)) ==
              Outcome(if hasArg.None? then Err(NotCallable) else Err(NoAttribute(VerbName(verb))), hasArg)
  {
  }

  /** A successful request calls the `do_<verb>` of the object the find
      returned, with the last segment and the query; this holds for a
      callable last segment (`has_arg` False) as well as an argument. */
  lemma VerbDispatch(root: Resource, hasArg: Option<bool>, req: RouteRequest)
    requires Execute(root, hasArg, req).result.Ok?
    ensures req.objectLocation != [] && req.query.Ok?
    ensures Find(root, req.objectLocation, hasArg).Ok?
    ensures
      var l := Find(root, req.objectLocation, hasArg).value;
      l.target.Some? && VerbName(req.verb) in l.target.value.attributes &&
      Execute(root, hasArg, req).result.value ==
        VerbCall(l.target.value.attributes[VerbName(req.verb)],
                 req.objectLocation[|req.objectLocation| - 1], req.query.value)
  {
  }

  // ---------------------------------------------------------------------
  // A concrete graph: `users` serves `do_get`, and `users.list` is a
  // callable resource that serves `do_get` too.

  const ListGet: Resource := Resource(map[], true)
  const UsersGet: Resource := Resource(map[], true)
  const UsersList: Resource := Resource(map["do_get" := ListGet], true)
  const Users: Resource := Resource(map["do_get" := UsersGet, "list" := UsersList], false)
  const Site: Resource := Resource(map["users" := Users], false)

  /** `GET /users/42`: `42` is no attribute of `users`, so it becomes the
      argument of `users.do_get`. */
  lemma UsersWithId(hasArg: Option<bool>, q: QueryMap)
    ensures Execute(Site, hasArg, RouteRequest(["users", "42"], "GET", Ok(q))) ==
              Outcome(Ok(VerbCall(UsersGet, "42", q)), Some(true))
  {
    assert Walk(Site, ["users"]) == Ok(Users) by {
      assert ["users"][..0] == [];
    }
    FindArgument(Site, ["users"], "42", Users, hasArg);
    assert ["users"] + ["42"] == ["users", "42"];
    assert Find(Site, ["users", "42"], hasArg) == Ok(Located(Some(Users), Some(true)));
    assert Lower("GET") == "get";
    assert VerbName("GET") == "do_get";
    assert Call(Some(Users), Some(true), RouteRequest(["users", "42"], "GET", Ok(q))) == Ok(VerbCall(UsersGet, "42", q));
  }

  /** `GET /users/list`: the callable `list` is found, `has_arg` becomes
      False, and still its `do_get` is called with `list` as argument. */
  lemma UsersListCall(hasArg: Option<bool>, q: QueryMap)
    ensures Execute(Site, hasArg, RouteRequest(["users", "list"], "GET", Ok(q))) ==
              Outcome(Ok(VerbCall(ListGet, "list", q)), Some(false))
  {
    assert Walk(Site, ["users"]) == Ok(Users) by {
      assert ["users"][..0] == [];
    }
    FindCallable(Site, ["users"], "list", Users, hasArg);
    assert ["users"] + ["list"] == ["users", "list"];
    assert Find(Site, ["users", "list"], hasArg) == Ok(Located(Some(UsersList), Some(false)));
    assert Lower("GET") == "get";
    assert VerbName("GET") == "do_get";
    assert Call(Some(UsersList), Some(false), RouteRequest(["users", "list"], "GET", Ok(q))) == Ok(VerbCall(ListGet, "list", q));
  }

  /** `POST /users/42`: `users` has no `do_post`. */
  lemma UsersNoPost(hasArg: Option<bool>, q: QueryMap)
    ensures Execute(Site, hasArg, RouteRequest(["users", "42"], "POST", Ok(q))) ==
              Outcome(Err(NoAttribute("do_post")), Some(true))
  {
    assert Walk(Site, ["users"]) == Ok(Users) by {
      assert ["users"][..0] == [];
    }
    FindArgument(Site, ["users"], "42", Users, hasArg);
    assert ["users"] + ["42"] == ["users", "42"];
    assert Find(Site, ["users", "42"], hasArg) == Ok(Located(Some(Users), Some(true)));
    assert Lower("POST") == "post";
    assert VerbName("POST") == "do_post";
    assert "do_post" !in Users.attributes;
  }
}
