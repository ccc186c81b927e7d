/** Name-to-handler registries that refuse a second handler for a name
    (the maps of backend/src/global/rsocket_manager.rs and
    backend/src/global/request_handler_manager.rs).

    The `panic!` on a duplicate is modelled as an explicit outcome; the
    handler values themselves are a type parameter. */
module Registry {
  import opened Base

  /** The outcome of a registration: the updated registry, or the panic. */
  datatype Registration<M> =
    | Registered(state: M)
    | DuplicatePanic(command: string)

  /** Registers `h` under `command`, or panics when the name is taken. */
  function Register<H>(handlers: map<string, H>, command: string, h: H): (r: Registration<map<string, H>>)
    ensures r.DuplicatePanic? <==> command in handlers
    ensures r.DuplicatePanic? ==> r.command == command
    ensures r.Registered? ==> r.state.Keys == handlers.Keys + {command}
    ensures r.Registered? ==> r.state[command] == h
    ensures r.Registered? ==> forall c :: c != command && c in handlers ==> r.state[c] == handlers[c]
  {
    if command in handlers then DuplicatePanic(command)
    else Registered(handlers[command := h])
  }

  /** The optional lookup. */
  function Lookup<H>(handlers: map<string, H>, command: string): (r: Option<H>)
    ensures r.Some? <==> command in handlers
    ensures r.Some? ==> r.value == handlers[command]
  {
    if command in handlers then Some(handlers[command]) else None
  }

  /** After registering, the lookup finds the new handler, and every other
      name is looked up as before. */
  lemma RegisterThenLookup<H>(handlers: map<string, H>, command: string, h: H, other: string)
    requires command !in handlers
    ensures Lookup(Register(handlers, command, h).state, command) == Some(h)
    ensures other != command ==> Lookup(Register(handlers, command, h).state, other) == Lookup(handlers, other)
  {
  }

  /** Registering the same name twice always panics on the second call. */
  lemma SecondRegistrationPanics<H>(handlers: map<string, H>, command: string, h1: H, h2: H)
    requires command !in handlers
    ensures Register(Register(handlers, command, h1).state, command, h2) == DuplicatePanic(command)
  {
  }

  /** Registrations under different names commute. */
  lemma DistinctRegistrationsCommute<H>(handlers: map<string, H>, c1: string, h1: H, c2: string, h2: H)
    requires c1 != c2 && c1 !in handlers && c2 !in handlers
    ensures Register(Register(handlers, c1, h1).state, c2, h2).Registered?
    ensures Register(Register(handlers, c2, h2).state, c1, h1).Registered?
    ensures Register(Register(handlers, c1, h1).state, c2, h2).state
         == Register(Register(handlers, c2, h2).state, c1, h1).state
  {
    assert handlers[c1 := h1][c2 := h2] == handlers[c2 := h2][c1 := h1];
  }
}
