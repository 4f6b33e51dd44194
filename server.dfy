/**
  Server.java: the handler registry and the dispatch step of handleNewConnection.

  A handler is an opaque identifier: the model never runs one, it only says
  which one would be invoked and with which request. The registry keeps the
  source's own key shape, a one-entry map from request type to path, so two
  registrations collide exactly when their type and path are both equal.
 */
module HttpServer {
  import opened Wrappers
  import opened Requests
  import opened RequestParser

  type HandlerId = nat

  /** The key addHandler builds: a fresh HashMap holding the single entry type -> path. */
  function Route(requestType: string, path: string): map<string, string>
  {
    map[requestType := path]
  }

  /** The lookup test in handleNewConnection: containsKey(type) && containsValue(path). */
  predicate Matches(key: map<string, string>, requestType: string, path: string)
  {
    requestType in key && path in key.Values
  }

  /** Every key in the registry is one addHandler could have built. */
  predicate SingletonKeys(registry: map<map<string, string>, HandlerId>)
  {
    forall key :: key in registry ==> |key| == 1
  }

  /** The registry after addHandler(type, path, handler): HashMap.put replaces any equal key. */
  function Register(registry: map<map<string, string>, HandlerId>, requestType: string, path: string, handler: HandlerId)
    : map<map<string, string>, HandlerId>
  {
    registry[Route(requestType, path) := handler]
  }

  /** The handler registered for exactly this type and path, if any. */
  function Lookup(registry: map<map<string, string>, HandlerId>, requestType: string, path: string): Option<HandlerId>
  {
    if Route(requestType, path) in registry then Some(registry[Route(requestType, path)]) else None
  }

  /** What one connection leads to. */
  datatype ConnectionOutcome =
      /** handler.handle(request, out) is called; the handler writes the response. */
      Handled(handler: HandlerId, request: Request)
      /** The connection is closed without anything being written. */
    | NoResponse
      /** A NullPointerException leaves handleNewConnection; no handler runs and nothing is written. */
    | Aborted

  /**
    handleNewConnection after the streams are open. A missing request line
    makes parse throw. A malformed one makes parse return null, which the loop
    dereferences as soon as the registry has an entry. A parsed request goes to
    the registered handler, or to nobody.
   */
  function Dispatch(registry: map<map<string, string>, HandlerId>, lines: seq<string>): ConnectionOutcome
  {
    match ParseRequest(lines)
    case MissingRequestLine => Aborted
    case Malformed => if registry == map[] then NoResponse else Aborted
    case Parsed(request) =>
      match Lookup(registry, request.requestType, request.path)
      case Some(handler) => Handled(handler, request)
      case None => NoResponse
  }

  class Server {
    /** Registered handlers, keyed by their one-entry (type -> path) map. */
    var handlers: map<map<string, string>, HandlerId>

    ghost predicate Valid()
      reads this
    {
      SingletonKeys(handlers)
    }

    /** new Server(): the registry starts empty. */
    constructor ()
      ensures Valid()
      ensures handlers == map[]
    {
      handlers := map[];
    }

    /** addHandler(type, path, handler). */
    method AddHandler(requestType: string, path: string, handler: HandlerId)
      requires Valid()
      modifies this
      ensures Valid()
      ensures handlers == Register(old(handlers), requestType, path, handler)
    {
      var data := map[requestType := path];
      handlers := handlers[data := handler];
    }

    /**
      The loop over handlers.entrySet(): every entry whose key matches
      overwrites the result. The entries are visited in whatever order the
      map chooses; the result is the same for every order.
     */
    method FindHandler(requestType: string, path: string) returns (handler: Option<HandlerId>)
      requires Valid()
      ensures handler == Lookup(handlers, requestType, path)
    {
      handler := None;
      var remaining := handlers.Keys;
      while remaining != {}
        invariant remaining <= handlers.Keys
        invariant handler == if Route(requestType, path) in handlers.Keys - remaining
                             then Some(handlers[Route(requestType, path)]) else None
        decreases remaining
      {
        var key :| key in remaining;
        MatchesIffRoute(key, requestType, path);
        if Matches(key, requestType, path) {
          handler := Some(handlers[key]);
        }
        remaining := remaining - {key};
      }
    }

    /** handleNewConnection, from the lines read to the handler invoked. */
    method HandleNewConnection(lines: seq<string>) returns (outcome: ConnectionOutcome)
      requires Valid()
      ensures outcome == Dispatch(handlers, lines)
    {
      var parsed := Parse(lines);
      match parsed {
        case MissingRequestLine =>
          outcome := Aborted;
        case Malformed =>
          outcome := if handlers == map[] then NoResponse else Aborted;
        case Parsed(request) =>
          var handler := FindHandler(request.requestType, request.path);
          outcome := if handler.Some? then Handled(handler.value, request) else NoResponse;
      }
    }
  }

  // ---------------------------------------------------------------------------
  // The lookup test
  // ---------------------------------------------------------------------------

  /** On a one-entry key, containsKey(type) && containsValue(path) holds exactly when the key is {type -> path}. */
  lemma MatchesIffRoute(key: map<string, string>, requestType: string, path: string)
    requires |key| == 1
    ensures Matches(key, requestType, path) <==> key == Route(requestType, path)
  {
    if Matches(key, requestType, path) {
      var other :| other in key && key[other] == path;
      assert key.Keys == {requestType} by {
        OneElement(key.Keys, requestType);
      }
      assert other == requestType;
    }
  }

  lemma OneElement<T>(s: set<T>, x: T)
    requires |s| == 1 && x in s
    ensures s == {x}
  {
    var rest := s - {x};
    assert |rest| == 0;
  }

  /** Different (type, path) pairs give different keys. */
  lemma RouteInjective(t1: string, p1: string, t2: string, p2: string)
    ensures Route(t1, p1) == Route(t2, p2) <==> t1 == t2 && p1 == p2
  {
    if Route(t1, p1) == Route(t2, p2) {
      assert t1 in Route(t2, p2);
    }
  }

  /** In a registry built by addHandler, at most one key passes the lookup test, so at most one handler can be chosen. */
  lemma AtMostOneMatch(registry: map<map<string, string>, HandlerId>, requestType: string, path: string,
                       k1: map<string, string>, k2: map<string, string>)
    requires SingletonKeys(registry)
    requires k1 in registry && k2 in registry
    requires Matches(k1, requestType, path) && Matches(k2, requestType, path)
    ensures k1 == k2
  {
    MatchesIffRoute(k1, requestType, path);
    MatchesIffRoute(k2, requestType, path);
  }

  /** Lookup finds h exactly when some key passes the containsKey/containsValue test and maps to h. */
  lemma LookupIsMatch(registry: map<map<string, string>, HandlerId>, requestType: string, path: string, h: HandlerId)
    requires SingletonKeys(registry)
    ensures Lookup(registry, requestType, path) == Some(h)
        <==> exists key :: key in registry && Matches(key, requestType, path) && registry[key] == h
  {
    var route := Route(requestType, path);
    if Lookup(registry, requestType, path) == Some(h) {
      assert route in registry && Matches(route, requestType, path) && registry[route] == h;
    }
    if exists key :: key in registry && Matches(key, requestType, path) && registry[key] == h {
      var key :| key in registry && Matches(key, requestType, path) && registry[key] == h;
      MatchesIffRoute(key, requestType, path);
    }
  }

  // ---------------------------------------------------------------------------
  // Registration
  // ---------------------------------------------------------------------------

  /** Registering keeps every key a one-entry map. */
  lemma RegisterKeepsSingletonKeys(registry: map<map<string, string>, HandlerId>, requestType: string, path: string, h: HandlerId)
    requires SingletonKeys(registry)
    ensures SingletonKeys(Register(registry, requestType, path, h))
  {
    assert |Route(requestType, path)| == 1;
  }

  /** After addHandler(t, p, h), a request for (t, p) selects h. */
  lemma LookupAfterRegister(registry: map<map<string, string>, HandlerId>, requestType: string, path: string, h: HandlerId)
    ensures Lookup(Register(registry, requestType, path, h), requestType, path) == Some(h)
  {
  }

  /** Registering (t, p) leaves the handler chosen for every other pair as it was. */
  lemma RegisterLeavesOthers(registry: map<map<string, string>, HandlerId>, requestType: string, path: string, h: HandlerId,
                             otherType: string, otherPath: string)
    requires otherType != requestType || otherPath != path
    ensures Lookup(Register(registry, requestType, path, h), otherType, otherPath) == Lookup(registry, otherType, otherPath)
  {
    RouteInjective(requestType, path, otherType, otherPath);
  }

  /** Registering (t, p) a second time replaces the handler and adds no entry. */
  lemma ReRegisterReplaces(registry: map<map<string, string>, HandlerId>, requestType: string, path: string, h1: HandlerId, h2: HandlerId)
    ensures var once := Register(registry, requestType, path, h1);
      && Register(once, requestType, path, h2) == Register(registry, requestType, path, h2)
      && |Register(once, requestType, path, h2)| == |once|
  {
  }

  /** One addHandler call. */
  datatype Registration = Registration(requestType: string, path: string, handler: HandlerId)

  /** The registry of a new Server after the given addHandler calls, in order. */
  function RegisterAll(registrations: seq<Registration>): map<map<string, string>, HandlerId>
  {
    if registrations == [] then map[]
    else
      var last := registrations[|registrations| - 1];
      Register(RegisterAll(registrations[..|registrations| - 1]), last.requestType, last.path, last.handler)
  }

  /** The distinct (type, path) pairs among the registrations. */
  function RegisteredPairs(registrations: seq<Registration>): set<(string, string)>
  {
    set i | 0 <= i < |registrations| :: (registrations[i].requestType, registrations[i].path)
  }

  /** The handler of the last registration for (t, p): the reference answer for a lookup. */
  function LastHandlerFor(registrations: seq<Registration>, requestType: string, path: string): Option<HandlerId>
  {
    if registrations == [] then None
    else
      var last := registrations[|registrations| - 1];
      if last.requestType == requestType && last.path == path then Some(last.handler)
      else LastHandlerFor(registrations[..|registrations| - 1], requestType, path)
  }

  /** Whatever the registrations, a request for (t, p) selects the handler registered last for (t, p). */
  lemma {:induction false} LookupIsLastRegistration(registrations: seq<Registration>, requestType: string, path: string)
    ensures Lookup(RegisterAll(registrations), requestType, path) == LastHandlerFor(registrations, requestType, path)
  {
    if registrations != [] {
      var init, last := registrations[..|registrations| - 1], registrations[|registrations| - 1];
      LookupIsLastRegistration(init, requestType, path);
      if last.requestType != requestType || last.path != path {
        RegisterLeavesOthers(RegisterAll(init), last.requestType, last.path, last.handler, requestType, path);
      }
    }
  }

  /** A registry built by addHandler calls has one-entry keys only. */
  lemma {:induction false} RegisterAllSingletonKeys(registrations: seq<Registration>)
    ensures SingletonKeys(RegisterAll(registrations))
  {
    if registrations != [] {
      var init, last := registrations[..|registrations| - 1], registrations[|registrations| - 1];
      RegisterAllSingletonKeys(init);
      RegisterKeepsSingletonKeys(RegisterAll(init), last.requestType, last.path, last.handler);
    }
  }

  lemma {:induction false} RegisteredKeys(registrations: seq<Registration>, requestType: string, path: string)
    ensures Route(requestType, path) in RegisterAll(registrations)
        <==> (requestType, path) in RegisteredPairs(registrations)
  {
    if registrations != [] {
      var init, last := registrations[..|registrations| - 1], registrations[|registrations| - 1];
      RegisteredKeys(init, requestType, path);
      RouteInjective(requestType, path, last.requestType, last.path);
      PairsAppend(init, last);
    }
  }

  lemma PairsAppend(init: seq<Registration>, last: Registration)
    ensures RegisteredPairs(init + [last]) == RegisteredPairs(init) + {(last.requestType, last.path)}
  {
    var all := init + [last];
    forall pair | pair in RegisteredPairs(all) ensures pair in RegisteredPairs(init) + {(last.requestType, last.path)} {
      var i :| 0 <= i < |all| && pair == (all[i].requestType, all[i].path);
      if i < |init| {
        assert all[i] == init[i];
      }
    }
    forall pair | pair in RegisteredPairs(init) ensures pair in RegisteredPairs(all) {
      var i :| 0 <= i < |init| && pair == (init[i].requestType, init[i].path);
      assert all[i] == init[i];
    }
    assert all[|init|] == last;
  }

  /** The registry holds one entry per distinct (type, path) pair registered. */
  lemma {:induction false} EntryCount(registrations: seq<Registration>)
    ensures |RegisterAll(registrations)| == |RegisteredPairs(registrations)|
  {
    if registrations != [] {
      var init, last := registrations[..|registrations| - 1], registrations[|registrations| - 1];
      assert registrations == init + [last];
      EntryCount(init);
      PairsAppend(init, last);
      RegisteredKeys(init, last.requestType, last.path);
    }
  }

  // ---------------------------------------------------------------------------
  // Dispatch
  // ---------------------------------------------------------------------------

  /**
    A request line that is missing or does not split into three parts never
    reaches a handler: with an empty registry the connection just closes,
    otherwise the null request is dereferenced first.
   */
  lemma NullRequestNeverHandled(registry: map<map<string, string>, HandlerId>, lines: seq<string>)
    requires !ParseRequest(lines).Parsed?
    ensures !Dispatch(registry, lines).Handled?
    ensures Dispatch(registry, lines) == NoResponse <==> lines != [] && registry == map[]
  {
  }

  /**
    A handler runs exactly when the lines parse and the parsed type and path
    were registered; it is then the handler registered last for them, and it
    receives the parsed request.
   */
  lemma HandledIffRegistered(registrations: seq<Registration>, lines: seq<string>, h: HandlerId, request: Request)
    ensures Dispatch(RegisterAll(registrations), lines) == Handled(h, request)
        <==> ParseRequest(lines) == Parsed(request)
             && LastHandlerFor(registrations, request.requestType, request.path) == Some(h)
  {
    match ParseRequest(lines)
    case Parsed(parsed) =>
      LookupIsLastRegistration(registrations, parsed.requestType, parsed.path);
      LookupIsLastRegistration(registrations, request.requestType, request.path);
    case _ =>
  }

  /** A parsed request whose (type, path) has no handler gets no response. */
  lemma UnmatchedGetsNoResponse(registry: map<map<string, string>, HandlerId>, lines: seq<string>)
    requires ParseRequest(lines).Parsed?
    requires Lookup(registry, ParseRequest(lines).request.requestType, ParseRequest(lines).request.path) == None
    ensures Dispatch(registry, lines) == NoResponse
  {
  }
}
