/** The two handler managers: `RSocketManager`
    (backend/src/global/rsocket_manager.rs), which keeps independent maps
    for request and stream handlers, and `RequestHandlerManager`
    (backend/src/global/request_handler_manager.rs), which keeps one. */
module RSocketManager {
  import opened Base
  import Registry

  datatype Manager<Q, S> = Manager(requestHandlers: map<string, Q>, streamHandlers: map<string, S>)

  function Default<Q, S>(): (m: Manager<Q, S>)
    ensures forall c :: c !in m.requestHandlers && c !in m.streamHandlers
  {
    Manager(map[], map[])
  }

  /** `add_request_handler`: panics on a name already in the request map;
      the stream map is not consulted. */
  function AddRequestHandler<Q, S>(m: Manager<Q, S>, command: string, h: Q): (r: Registry.Registration<Manager<Q, S>>)
    ensures r.DuplicatePanic? <==> command in m.requestHandlers
    ensures r.Registered? ==>
      && r.state.streamHandlers == m.streamHandlers
      && r.state.requestHandlers == Registry.Register(m.requestHandlers, command, h).state
  {
    match Registry.Register(m.requestHandlers, command, h)
    case DuplicatePanic(c) => Registry.DuplicatePanic(c)
    case Registered(hs) => Registry.Registered(m.(requestHandlers := hs))
  }

  /** `raw_handler`: the optional lookup in the request map. */
  function RawHandler<Q, S>(m: Manager<Q, S>, command: string): (r: Option<Q>)
    ensures r == Registry.Lookup(m.requestHandlers, command)
  {
    Registry.Lookup(m.requestHandlers, command)
  }

  /** `add_stream_handler`: panics on a name already in the stream map;
      the request map is not consulted. */
  function AddStreamHandler<Q, S>(m: Manager<Q, S>, command: string, h: S): (r: Registry.Registration<Manager<Q, S>>)
    ensures r.DuplicatePanic? <==> command in m.streamHandlers
    ensures r.Registered? ==>
      && r.state.requestHandlers == m.requestHandlers
      && r.state.streamHandlers == Registry.Register(m.streamHandlers, command, h).state
  {
    match Registry.Register(m.streamHandlers, command, h)
    case DuplicatePanic(c) => Registry.DuplicatePanic(c)
    case Registered(hs) => Registry.Registered(m.(streamHandlers := hs))
  }

  /** `raw_stream_handler`: unwraps the lookup, so the name must be registered. */
  function RawStreamHandler<Q, S>(m: Manager<Q, S>, command: string): (h: S)
    requires command in m.streamHandlers
    ensures Registry.Lookup(m.streamHandlers, command) == Some(h)
  {
    m.streamHandlers[command]
  }

  /** One name can be registered once as a request handler and once as a
      stream handler, in either order, and both lookups then succeed. */
  lemma MapsAreIndependent<Q, S>(m: Manager<Q, S>, command: string, q: Q, s: S)
    requires command !in m.requestHandlers && command !in m.streamHandlers
    ensures var r1 := AddRequestHandler(m, command, q);
      && r1.Registered?
      && AddStreamHandler(r1.state, command, s).Registered?
      && RawHandler(AddStreamHandler(r1.state, command, s).state, command) == Some(q)
      && RawStreamHandler(AddStreamHandler(r1.state, command, s).state, command) == s
    ensures AddRequestHandler(m, command, q).Registered?
      && AddRequestHandler(AddRequestHandler(m, command, q).state, command, q).DuplicatePanic?
  {
  }

  /** A request registration leaves stream lookups alone, and vice versa. */
  lemma RegistrationsDoNotCross<Q, S>(m: Manager<Q, S>, c1: string, q: Q, c2: string, s: S)
    ensures AddRequestHandler(m, c1, q).Registered? ==>
      Registry.Lookup(AddRequestHandler(m, c1, q).state.streamHandlers, c2) == Registry.Lookup(m.streamHandlers, c2)
    ensures AddStreamHandler(m, c2, s).Registered? ==>
      RawHandler(AddStreamHandler(m, c2, s).state, c1) == RawHandler(m, c1)
  {
  }
}

module RequestHandlerManager {
  import opened Base
  import Registry

  datatype Manager<H> = Manager(rawMap: map<string, H>)

  function Default<H>(): (m: Manager<H>)
    ensures forall c :: c !in m.rawMap
  {
    Manager(map[])
  }

  /** `add_handler`: panics on a registered name, otherwise inserts. */
  function AddHandler<H>(m: Manager<H>, command: string, h: H): (r: Registry.Registration<Manager<H>>)
    ensures r.DuplicatePanic? <==> command in m.rawMap
    ensures r.Registered? ==> r.state.rawMap.Keys == m.rawMap.Keys + {command}
    ensures r.Registered? ==> forall c :: c in m.rawMap ==> r.state.rawMap[c] == m.rawMap[c]
  {
    match Registry.Register(m.rawMap, command, h)
    case DuplicatePanic(c) => Registry.DuplicatePanic(c)
    case Registered(hs) => Registry.Registered(Manager(hs))
  }

  /** `raw_handler`: unwraps the lookup, so the name must be registered. */
  function RawHandler<H>(m: Manager<H>, command: string): (h: H)
    requires command in m.rawMap
    ensures Registry.Lookup(m.rawMap, command) == Some(h)
  {
    m.rawMap[command]
  }

  /** `raw_handler` after `add_handler` returns the handler just added. */
  lemma AddThenRawHandler<H>(m: Manager<H>, command: string, h: H)
    requires command !in m.rawMap
    ensures AddHandler(m, command, h).Registered?
    ensures RawHandler(AddHandler(m, command, h).state, command) == h
  {
  }
}
