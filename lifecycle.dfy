/**
 * Starting and stopping one component, as functions of the configuration,
 * the registry before the call and the component's name. A failed check of
 * the caller's obligations (an `assert` in depys) and a failure of the
 * component's own function are two distinct kinds of error; on either, the
 * registry is left as it was, so a failure carries no new registry.
 */
module Lifecycle {
  import opened Wrappers
  import opened Components

  datatype Error =
    | AlreadyRunning(name: Name)    // started while present in the registry
    | UnknownComponent(name: Name)  // not declared in the configuration
    | MissingStart(name: Name)      // its spec has no "start" entry
    | MissingStop(name: Name)       // its spec has no "stop" entry
    | NotRunning(name: Name)        // stopped while absent from the registry
    | StartFailed(name: Name)       // its start function raised
    | StopFailed(name: Name)        // its stop function raised
  {
    /** A misuse of the API by the caller, as opposed to a failure of the component itself. */
    predicate IsMisuse() {
      !StartFailed? && !StopFailed?
    }
  }

  /** One invocation of a component's start or stop function. */
  datatype Call = StartCall(name: Name) | StopCall(name: Name)

  /** The configuration value passed to a start function: the spec's own, or an empty dict. */
  function ConstructorConfig(spec: Spec): Value {
    if spec.config.Some? then spec.config.value else EmptyDict
  }

  /** All of start_component's checks pass, so its start function gets called. */
  predicate CanStart(config: Config, live: Live, name: Name) {
    && name !in live
    && Lookup(config, name).Some?
    && Lookup(config, name).value.start.Some?
  }

  /** All of stop_component's checks pass, so its stop function gets called. */
  predicate CanStop(config: Config, live: Live, name: Name) {
    && Lookup(config, name).Some?
    && Lookup(config, name).value.stop.Some?
    && name in live
  }

  /** The calls start_component makes of user code: one exactly when its checks pass. */
  function StartAttempt(config: Config, live: Live, name: Name): seq<Call> {
    if CanStart(config, live, name) then [StartCall(name)] else []
  }

  /** The calls stop_component makes of user code: one exactly when its checks pass. */
  function StopAttempt(config: Config, live: Live, name: Name): seq<Call> {
    if CanStop(config, live, name) then [StopCall(name)] else []
  }

  /**
   * start_component: on success, the new registry and the new instance.
   * The checks run in the order start_component makes them: absent from the registry,
   * declared, has a start function.
   */
  function Start(config: Config, live: Live, name: Name): (r: Result<(Live, Value), Error>)
    // starting a running component is misuse, and its entry is kept
    ensures name in live ==> r == Failure(AlreadyRunning(name))
    ensures name !in live && name !in KeysOf(config) ==> r == Failure(UnknownComponent(name))
    ensures (name !in live && name in KeysOf(config) && Lookup(config, name).value.start.None?)
            ==> r == Failure(MissingStart(name))
    // misuse exactly when a check fails; otherwise only the start function can fail
    ensures r.Failure? ==> r.error.name == name
    ensures (r.Failure? && r.error.IsMisuse()) <==> !CanStart(config, live, name)
    ensures r.Failure? && !r.error.IsMisuse() ==> r.error == StartFailed(name)
    // the start function sees the registry as it was and the declared config, or {} if none
    // (ConstructorConfig written out, so that the contract shows the default)
    ensures CanStart(config, live, name) ==>
              var spec := Lookup(config, name).value;
              var outcome := spec.start.value(live, if spec.config.Some? then spec.config.value else EmptyDict);
              (r.Success? <==> outcome.Returned?) && (r.Success? ==> r.value.1 == outcome.value)
    // success adds exactly this component, mapped to the new instance
    ensures r.Success? ==>
              && r.value.0.Keys == live.Keys + {name}
              && r.value.0[name] == r.value.1
              && forall n :: n in live ==> r.value.0[n] == live[n]
  {
    if name in live then Failure(AlreadyRunning(name))
    else
      match Lookup(config, name)
      case None => Failure(UnknownComponent(name))
      case Some(spec) =>
        match spec.start
        case None => Failure(MissingStart(name))
        case Some(startFn) =>
          match startFn(live, ConstructorConfig(spec))
          case Raised => Failure(StartFailed(name))
          case Returned(instance) => Success((live[name := instance], instance))
  }

  /**
   * stop_component: on success, the new registry and the removed instance.
   * The checks run in the order stop_component makes them: declared, has a stop function,
   * present in the registry.
   */
  function Stop(config: Config, live: Live, name: Name): (r: Result<(Live, Value), Error>)
    ensures name !in KeysOf(config) ==> r == Failure(UnknownComponent(name))
    ensures name in KeysOf(config) && Lookup(config, name).value.stop.None? ==> r == Failure(MissingStop(name))
    ensures (name in KeysOf(config) && Lookup(config, name).value.stop.Some? && name !in live)
            ==> r == Failure(NotRunning(name))
    ensures r.Failure? ==> r.error.name == name
    ensures (r.Failure? && r.error.IsMisuse()) <==> !CanStop(config, live, name)
    ensures r.Failure? && !r.error.IsMisuse() ==> r.error == StopFailed(name)
    // the stop function sees the stored instance, not the registry
    ensures CanStop(config, live, name) ==>
              (r.Success? <==> Lookup(config, name).value.stop.value(live[name]).Returned?)
    // success removes exactly this component and hands back its instance
    ensures r.Success? ==>
              && name in live
              && r.value.1 == live[name]
              && r.value.0.Keys == live.Keys - {name}
              && forall n :: n in r.value.0 ==> r.value.0[n] == live[n]
  {
    match Lookup(config, name)
    case None => Failure(UnknownComponent(name))
    case Some(spec) =>
      match spec.stop
      case None => Failure(MissingStop(name))
      case Some(stopFn) =>
        if name !in live then Failure(NotRunning(name))
        else
          match stopFn(live[name])
          case Raised => Failure(StopFailed(name))
          case Returned(_) => Success((live - {name}, live[name]))
  }

  /** Stopping a component just started returns the registry to what it was, and the same instance. */
  lemma StartThenStop(config: Config, live: Live, name: Name)
    requires Start(config, live, name).Success?
    requires Stop(config, Start(config, live, name).value.0, name).Success?
    ensures Stop(config, Start(config, live, name).value.0, name).value.0 == live
    ensures Stop(config, Start(config, live, name).value.0, name).value.1 == Start(config, live, name).value.1
  {
  }
}
