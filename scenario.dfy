/**
 * The two-component system of the repository's tests: each start function
 * reads "time_to_sleep" from its configuration and returns
 * {"slept": t, "stopped": false}; each stop function returns normally.
 */
module Scenario {
  import opened Wrappers
  import opened Components
  import opened Lifecycle
  import opened SystemSpec
  import opened Orchestrator

  /** Like the tests' start functions: `config["time_to_sleep"]` raises when the key is missing. */
  function SleepyStart(registry: Live, config: Value): Outcome<Value> {
    if config.Dict? && "time_to_sleep" in config.fields then
      Returned(Instance(config.fields["time_to_sleep"], false))
    else
      Raised
  }

  function Instance(slept: Value, stopped: bool): Value {
    Dict(map["slept" := slept, "stopped" := Bool(stopped)])
  }

  function QuietStop(component: Value): Outcome<Value> {
    Returned(Null)
  }

  function SleepFor(t: int): Value {
    Dict(map["time_to_sleep" := Int(t)])
  }

  const SimpleConfig: Config := [
    ("sync", Spec(Some(SleepyStart), Some(QuietStop), Some(SleepFor(2)))),
    ("async", Spec(Some(SleepyStart), Some(QuietStop), Some(SleepFor(3))))
  ]

  /** Starting from an empty registry, start_system starts "sync" then "async" with their instances. */
  lemma SimpleStart()
    ensures StartAll(SimpleConfig, map[])
            == Run(map["sync" := Instance(Int(2), false), "async" := Instance(Int(3), false)],
                   [StartCall("sync"), StartCall("async")], None)
  {
    LookupAt(SimpleConfig, 0);
    LookupAt(SimpleConfig, 1);
    assert StartUpTo(SimpleConfig, 1, map[]) == Run(map["sync" := Instance(Int(2), false)], [StartCall("sync")], None);
  }

  /** stop_system then stops "async" before "sync" and leaves the registry empty. */
  lemma SimpleStop()
    ensures StopAll(SimpleConfig, StartAll(SimpleConfig, map[]).live)
            == Run(map[], [StopCall("async"), StopCall("sync")], None)
  {
    SimpleStart();
    LookupAt(SimpleConfig, 0);
    LookupAt(SimpleConfig, 1);
    var started := map["sync" := Instance(Int(2), false), "async" := Instance(Int(3), false)];
    assert StopDownTo(SimpleConfig, 1, started) == Run(map["sync" := Instance(Int(2), false)], [StopCall("async")], None);
    assert map["sync" := Instance(Int(2), false)] - {"sync"} == map[];
  }

  /** The tests' start-then-stop sequence, made through the in-place operations. */
  method StartThenStopSystem() returns (state: Registry)
    ensures state.entries == map[]
    ensures state.log == [StartCall("sync"), StartCall("async"), StopCall("async"), StopCall("sync")]
  {
    state := new Registry(map[]);
    var err := StartSystem(SimpleConfig, state);
    SimpleStart();
    assert state.entries == map["sync" := Instance(Int(2), false), "async" := Instance(Int(3), false)];
    err := StopSystem(SimpleConfig, state);
    SimpleStop();
  }
}
