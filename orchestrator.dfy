/**
 * The orchestrator's four operations, acting in place on a registry object
 * as depys acts on its `state` dict. Each is proved against the
 * functions of Lifecycle and SystemSpec that say what it computes.
 */
module Orchestrator {
  import opened Wrappers
  import opened Components
  import opened Lifecycle
  import opened SystemSpec

  /** The mutable registry of live components shared by every orchestration call. */
  class Registry {
    /** The live instances, keyed by component name. */
    var entries: Live
    /** Every call of a component's start or stop function made on this registry's behalf, in order. */
    ghost var log: seq<Call>

    constructor (initial: Live)
      ensures entries == initial && log == []
    {
      entries := initial;
      log := [];
    }
  }

  /**
   * start_component: checks the caller's obligations, calls the start
   * function with the registry and the component's configuration, and on
   * success stores the new instance and returns the registry with it.
   */
  method StartComponent(config: Config, state: Registry, name: Name) returns (r: Result<(Registry, Value), Error>)
    modifies state
    ensures var spec := Start(config, old(state.entries), name);
            && (r.Success? <==> spec.Success?)
            && (r.Success? ==> r.value.0 == state && state.entries == spec.value.0 && r.value.1 == spec.value.1)
            && (r.Failure? ==> r.error == spec.error && state.entries == old(state.entries))
    ensures state.log == old(state.log) + StartAttempt(config, old(state.entries), name)
  {
    if name in state.entries {
      return Failure(AlreadyRunning(name));
    }
    var spec := Lookup(config, name);
    if spec.None? {
      return Failure(UnknownComponent(name));
    }
    if spec.value.start.None? {
      return Failure(MissingStart(name));
    }
    var startFn := spec.value.start.value;
    var constructorConfig := ConstructorConfig(spec.value);
    var outcome := startFn(state.entries, constructorConfig);
    state.log := state.log + [StartCall(name)];
    if outcome.Raised? {
      return Failure(StartFailed(name));
    }
    state.entries := state.entries[name := outcome.value];
    return Success((state, outcome.value));
  }

  /**
   * stop_component: checks the caller's obligations, calls the stop
   * function with the stored instance, and on success removes the entry and
   * returns the registry with the removed instance.
   */
  method StopComponent(config: Config, state: Registry, name: Name) returns (r: Result<(Registry, Value), Error>)
    modifies state
    ensures var spec := Stop(config, old(state.entries), name);
            && (r.Success? <==> spec.Success?)
            && (r.Success? ==> r.value.0 == state && state.entries == spec.value.0 && r.value.1 == spec.value.1)
            && (r.Failure? ==> r.error == spec.error && state.entries == old(state.entries))
    ensures state.log == old(state.log) + StopAttempt(config, old(state.entries), name)
  {
    var spec := Lookup(config, name);
    if spec.None? {
      return Failure(UnknownComponent(name));
    }
    if spec.value.stop.None? {
      return Failure(MissingStop(name));
    }
    var stopFn := spec.value.stop.value;
    if name !in state.entries {
      return Failure(NotRunning(name));
    }
    var existing := state.entries[name];
    var outcome := stopFn(existing);
    state.log := state.log + [StopCall(name)];
    if outcome.Raised? {
      return Failure(StopFailed(name));
    }
    state.entries := state.entries - {name};
    return Success((state, existing));
  }

  /** start_system: starts every component in declaration order, aborting on the first error. */
  method StartSystem(config: Config, state: Registry) returns (err: Option<Error>)
    modifies state
    ensures var run := StartAll(config, old(state.entries));
            state.entries == run.live && state.log == old(state.log) + run.calls && err == run.error
  {
    ghost var live0 := state.entries;
    ghost var log0 := state.log;
    var i := 0;
    while i < |config|
      invariant i <= |config|
      invariant StartUpTo(config, i, live0).error.None?
      invariant state.entries == StartUpTo(config, i, live0).live
      invariant state.log == log0 + StartUpTo(config, i, live0).calls
    {
      ghost var prev := StartUpTo(config, i, live0);
      ghost var attempt := StartAttempt(config, prev.live, config[i].0);
      StartUpToStep(config, i, live0);
      var res := StartComponent(config, state, config[i].0);
      assert state.log == log0 + (prev.calls + attempt) by {
        assert state.log == (log0 + prev.calls) + attempt;
      }
      if res.Failure? {
        StartUpToSticky(config, i + 1, |config|, live0);
        return Some(res.error);
      }
      i := i + 1;
    }
    return None;
  }

  /**
   * stop_system: in reverse declaration order, stops every component that
   * is in the registry, aborting on the first error.
   */
  method StopSystem(config: Config, state: Registry) returns (err: Option<Error>)
    modifies state
    ensures var run := StopAll(config, old(state.entries));
            state.entries == run.live && state.log == old(state.log) + run.calls && err == run.error
  {
    ghost var live0 := state.entries;
    ghost var log0 := state.log;
    var i := |config|;
    while i > 0
      invariant 0 <= i <= |config|
      invariant StopDownTo(config, |config| - i, live0).error.None?
      invariant state.entries == StopDownTo(config, |config| - i, live0).live
      invariant state.log == log0 + StopDownTo(config, |config| - i, live0).calls
    {
      StopDownToStep(config, |config| - i, live0);
      i := i - 1;
      var name := config[i].0;
      if name in state.entries {
        ghost var prev := StopDownTo(config, |config| - i - 1, live0);
        ghost var attempt := StopAttempt(config, prev.live, name);
        var res := StopComponent(config, state, name);
        assert state.log == log0 + (prev.calls + attempt) by {
          assert state.log == (log0 + prev.calls) + attempt;
        }
        if res.Failure? {
          StopDownToSticky(config, |config| - i, |config|, live0);
          return Some(res.error);
        }
      }
    }
    return None;
  }
}
