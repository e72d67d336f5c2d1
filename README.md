# depys: a verified model of the component lifecycle orchestrator

depys brings a system of named components up in declaration order and tears
it down in reverse. A *configuration* is an ordered mapping from component
name to a spec with a `start` function, a `stop` function and an optional
`config` value. A *registry* (`state`) maps the name of every running
component to the instance its start function returned. Four operations work
on them in place:

- `start_component` checks that the component is not running, is declared
  and has a start function. It then calls the start function with the
  registry and the component's configuration (`{}` when there is none) and
  stores the returned instance.
- `stop_component` checks that the component is declared, has a stop
  function and is running. It then calls the stop function with the stored
  instance and removes the entry.
- `start_system` starts every component in declaration order.
- `stop_system` stops, in reverse declaration order, every component that is
  in the registry.

If a start or stop function raises, the orchestrator raises a start or stop
failure naming the component, and the registry is left as it was. A system
operation aborts on the first error and does not roll back.

## How the model is organised

- `wrappers.dfy` (`Wrappers`): `Option` and `Result`.
- `components.dfy` (`Components`): the `Value`s passed around, the registry
  type `Live` (a `map` from name to value), `Spec`, and `Config`. A `Config`
  is a sequence of `(name, spec)` pairs with distinct names, so declaration
  order is explicit.
  User-supplied functions are total Dafny functions that return an `Outcome`:
  either `Returned(v)` or `Raised`.
- `lifecycle.dfy` (`Lifecycle`): `Start` and `Stop`, the single-component
  operations as functions, with the error taxonomy. A failed `assert` in the
  source becomes a *misuse* error (`AlreadyRunning`, `UnknownComponent`,
  `MissingStart`, `MissingStop`, `NotRunning`). A raised start or stop
  function becomes `StartFailed` or `StopFailed`.
- `system.dfy` (`SystemSpec`): `StartUpTo(config, k, live)` and
  `StopDownTo(config, k, live)` describe the first `k` iterations of the two
  system loops. Each gives the registry, the calls made of user code and the
  error, if any. `StartAll` and `StopAll` are the full loops. `InOrder`,
  `ReverseLive` and `Mirror` are independent reference definitions of the
  expected call orders.
- `orchestrator.dfy` (`Orchestrator`): the `Registry` class. Its `entries`
  field is the mutable dict; a ghost `log` records every call of a start or
  stop function. The four operations are methods that mutate the registry
  in place. Each is proved equal to the function above that specifies it.
- `scenario.dfy` (`Scenario`): the two-component configuration used by the
  repository's tests, started and stopped.

Two facts about the code shape the model:

- `start_component` checks "not running" first, then "declared", then "has
  a `start` entry" (depys/_impl.py:6-9). When more than one check fails, the
  misuse error follows that order.
- `start_system` accepts a registry that already has entries
  (depys/_impl.py:45-47). On success, the keys are the configured names plus
  the earlier keys. A configured name that is already running stops the loop
  with the misuse error at that component.

## Model

| member | source | states |
|---|---|---|
| Components.Lookup | depys/_impl.py:7-8 | `config.get(name)` finds a spec exactly when `name` is declared in the configuration |
| Components.LookupAt | depys/_impl.py:8 | because names are distinct, looking up the name declared at position j gives the spec declared at j |
| Lifecycle.Start | depys/_impl.py:5-22 | checks run in the source's order. Starting a running component gives `AlreadyRunning` and keeps its entry; an undeclared one gives `UnknownComponent`; a spec without `start` gives `MissingStart`. A misuse error occurs exactly when a check fails; otherwise only `StartFailed` can occur. The start function receives the current registry and the declared config, or `{}`. On success the registry gains exactly this name, mapped to the returned instance, and every other entry is unchanged. Every error names the component |
| Lifecycle.Stop | depys/_impl.py:25-42 | checks run in the source's order: declared, has `stop`, running. A misuse error occurs exactly when a check fails; otherwise only `StopFailed` can occur. The stop function receives the stored instance, not the registry. On success exactly this name is removed, the other entries are unchanged, and the removed instance is returned |
| Lifecycle.StartThenStop | depys/_impl.py:5-42 | stopping a component right after starting it restores the registry exactly and returns the instance the start function produced |
| SystemSpec.StartUpToSticky | depys/_impl.py:45-47 | once an iteration of `start_system` raises, later iterations change nothing: the first error aborts the loop |
| SystemSpec.StopDownToSticky | depys/_impl.py:50-53 | once an iteration of `stop_system` raises, later iterations change nothing |
| SystemSpec.StartedPrefix | depys/_impl.py:45-47 | after k error-free iterations, none of the first k components was running before. The registry's keys are the old keys plus those k names, old entries are untouched, and start functions were called in declaration order |
| SystemSpec.StartedEntry | depys/_impl.py:45-47 | the entry stored for the j-th component is what its `start_component` returned on the registry left by the j earlier components; later components never overwrite it |
| SystemSpec.StartSystemSucceeds | tests/test_depys.py:76-99 | a successful `start_system` adds every configured name, none of which was running, to the untouched registry, calling start functions in exact declaration order |
| SystemSpec.StartFailedAt | depys/_impl.py:45-47 | a failing `start_system` failed at one component f. Its error is exactly the error `start_component` gave for f on the registry the first f left, so a misuse error and a start failure stay distinct, and it names f. The registry is exactly the one the first f components left (so, by `StartedPrefix`, every earlier entry keeps its value): they are present, and f and the later components that were not already running are absent. The calls are the first f start calls, plus f's own call if its start function raised; no later start function was called |
| SystemSpec.StoppedSuffix | depys/_impl.py:50-53 | once the reversed loop has handled, without an error, the components declared from position i on, exactly the running ones among them have been removed. Other entries are untouched; names not in the registry were skipped without a call; stop calls went last-declared first |
| SystemSpec.StopSystemSucceeds | depys/_impl.py:50-53 | a successful `stop_system` removes exactly the configured names that were running, keeps every other entry, and calls their stop functions in reverse declaration order |
| SystemSpec.StopFailedAt | depys/_impl.py:50-53 | a failing `stop_system` failed at the component declared at f. Its error is exactly the error `stop_component` gave for f on the registry the later components left, so a misuse error and a stop failure stay distinct, and it names f, which is still registered. Every running component declared after f was stopped, last-declared first. No entry was added or changed: every key left was there before with the same value, so undeclared entries and those declared at or before f keep theirs |
| SystemSpec.SystemRoundTrip | tests/test_depys.py:102-109 | when `start_system` and then `stop_system` both succeed, the registry is exactly what it was before starting (empty if it started empty), and stop calls are the start calls reversed |
| Orchestrator.Registry.constructor | tests/test_depys.py:54 | a fresh registry holds the given entries and no calls have been made |
| Orchestrator.StartComponent | depys/_impl.py:5-22 | mutates the registry in place as `Start` says, returns the same registry object with the new instance, leaves the registry untouched on any error, and logs the start call exactly when the checks passed |
| Orchestrator.StopComponent | depys/_impl.py:25-42 | mutates the registry in place as `Stop` says, returns the same registry object with the removed instance, leaves the registry untouched on any error, and logs the stop call exactly when the checks passed |
| Orchestrator.StartSystem | depys/_impl.py:45-47 | the loop over the configuration leaves the registry, the call log and the error that `StartAll` gives |
| Orchestrator.StopSystem | depys/_impl.py:50-53 | the reversed loop, which skips names not in the registry, leaves the registry, the call log and the error that `StopAll` gives |
| Scenario.SimpleStart | tests/test_depys.py:94-99 | for the tests' two-component configuration on an empty registry, `start_system` starts `sync` then `async`, storing `{"slept": 2, "stopped": false}` and `{"slept": 3, "stopped": false}` |
| Scenario.SimpleStop | tests/test_depys.py:102-109 | `stop_system` then stops `async` before `sync` and leaves the registry empty |
| Scenario.StartThenStopSystem | tests/test_depys.py:102-109 | the same sequence through the in-place methods ends with an empty registry and the log start sync, start async, stop async, stop sync |

## Left out

- Sync versus async invocation (`asyncio.iscoroutinefunction`, `anyio.run`) is collapsed into one call that returns or raises. The event loop that drives an async function is not modelled.
- What user-supplied start and stop functions do inside is not modelled; they are opaque functions of their arguments. The start function receives the registry as a value, so a function that mutates the registry it is passed is not modelled. Neither is a stop function that mutates the stored instance, as the tests' `component["stopped"] = True` does.
- Lifecycle.Start: a `start` entry that is not callable raises `TypeError` inside the `try` and so becomes a start failure in the source. In the model a `start` entry is always a function, so this case cannot arise. The same holds for `stop` in Lifecycle.Stop.
- Exceptions that are not subclasses of `Exception` (for example `KeyboardInterrupt`) escape unwrapped in the source. The model has a single kind of raise.
- The exception class (`IOError`), its message text and the original cause are not modelled. An error carries only its kind and the component name.
- `assert` statements disappear when Python runs with `-O`; the model always performs the checks.
- The source raises where the model returns an error: the single-component methods return a `Result`, and `StartSystem`/`StopSystem` return an `Option<Error>` in place of Python's `None` or an exception.
- Wall-clock timing and sleeps in the tests are left out; only their sequencing survives, as the ghost call log.
- Python dict insertion order is represented by the order of the `Config` sequence, so declaration order is explicit.
- Arbitrary Python objects are approximated by the `Value` datatype: null, booleans, integers, strings, dicts and opaque objects.
