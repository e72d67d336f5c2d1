/**
 * Starting and stopping the whole system. StartUpTo and StopDownTo give the
 * registry, the calls made of user code and the error raised (if any) after
 * the first k iterations of start_system's and stop_system's loops; the first
 * error ends the run, so later iterations change nothing. The lemmas relate
 * these runs to the declaration order and to the registry they leave.
 */
module SystemSpec {
  import opened Wrappers
  import opened Components
  import opened Lifecycle

  datatype Run = Run(live: Live, calls: seq<Call>, error: Option<Error>)

  /** The first k iterations of `for component in config: start_component(...)`. */
  function StartUpTo(config: Config, k: nat, live: Live): Run
    requires k <= |config|
  {
    if k == 0 then Run(live, [], None)
    else
      var prev := StartUpTo(config, k - 1, live);
      if prev.error.Some? then prev
      else
        var name := config[k - 1].0;
        var calls := prev.calls + StartAttempt(config, prev.live, name);
        match Start(config, prev.live, name)
        case Success(started) => Run(started.0, calls, None)
        case Failure(e) => Run(prev.live, calls, Some(e))
  }

  /** start_system. */
  function StartAll(config: Config, live: Live): Run {
    StartUpTo(config, |config|, live)
  }

  /**
   * The first k iterations of `for component in reversed(config)`, each of
   * which stops its component only if it is in the registry; iteration k
   * handles the component declared at position |config| - k.
   */
  function StopDownTo(config: Config, k: nat, live: Live): Run
    requires k <= |config|
  {
    if k == 0 then Run(live, [], None)
    else
      var prev := StopDownTo(config, k - 1, live);
      var name := config[|config| - k].0;
      if prev.error.Some? || name !in prev.live then prev
      else
        var calls := prev.calls + StopAttempt(config, prev.live, name);
        match Stop(config, prev.live, name)
        case Success(stopped) => Run(stopped.0, calls, None)
        case Failure(e) => Run(prev.live, calls, Some(e))
  }

  /** stop_system. */
  function StopAll(config: Config, live: Live): Run {
    StopDownTo(config, |config|, live)
  }

  /** Reference order for starting: a start call per entry, in declaration order. */
  function InOrder(entries: seq<(Name, Spec)>): seq<Call> {
    if entries == [] then [] else [StartCall(entries[0].0)] + InOrder(entries[1..])
  }

  /** Reference order for stopping: a stop call per entry present in `live`, last-declared first. */
  function ReverseLive(entries: seq<(Name, Spec)>, live: Live): seq<Call> {
    if entries == [] then []
    else ReverseLive(entries[1..], live) + (if entries[0].0 in live then [StopCall(entries[0].0)] else [])
  }

  /** The calls in reverse, each made a stop call of the same component. */
  function Mirror(calls: seq<Call>): seq<Call> {
    if calls == [] then [] else Mirror(calls[1..]) + [StopCall(calls[0].name)]
  }

  lemma {:induction false} InOrderBack(entries: seq<(Name, Spec)>, k: nat)
    requires k < |entries|
    ensures InOrder(entries[..k + 1]) == InOrder(entries[..k]) + [StartCall(entries[k].0)]
  {
    if k == 0 {
      assert entries[..1] == [entries[0]];
      assert entries[..1][1..] == [];
    } else {
      InOrderBack(entries[1..], k - 1);
      assert entries[..k + 1][1..] == entries[1..][..k];
      assert entries[..k][1..] == entries[1..][..k - 1];
    }
  }

  /** One more iteration of start_system after an error-free run: start_component on the registry left so far. */
  lemma StartUpToStep(config: Config, i: nat, live: Live)
    requires i < |config| && StartUpTo(config, i, live).error.None?
    ensures var prev := StartUpTo(config, i, live);
            var s := Start(config, prev.live, config[i].0);
            StartUpTo(config, i + 1, live)
            == Run(if s.Success? then s.value.0 else prev.live,
                   prev.calls + StartAttempt(config, prev.live, config[i].0),
                   if s.Success? then None else Some(s.error))
  {
  }

  /** One more iteration of stop_system after an error-free run: skip, or stop_component on the registry left so far. */
  lemma StopDownToStep(config: Config, i: nat, live: Live)
    requires i < |config| && StopDownTo(config, i, live).error.None?
    ensures var prev := StopDownTo(config, i, live);
            var name := config[|config| - 1 - i].0;
            var s := Stop(config, prev.live, name);
            StopDownTo(config, i + 1, live)
            == if name !in prev.live then prev
               else Run(if s.Success? then s.value.0 else prev.live,
                        prev.calls + StopAttempt(config, prev.live, name),
                        if s.Success? then None else Some(s.error))
  {
  }

  /** Once a run has raised, further iterations leave it as it is. */
  lemma {:induction false} StartUpToSticky(config: Config, k: nat, m: nat, live: Live)
    requires k <= m <= |config| && StartUpTo(config, k, live).error.Some?
    ensures StartUpTo(config, m, live) == StartUpTo(config, k, live)
    decreases m
  {
    if m > k { StartUpToSticky(config, k, m - 1, live); }
  }

  /** Once a run has raised, further iterations leave it as it is. */
  lemma {:induction false} StopDownToSticky(config: Config, k: nat, m: nat, live: Live)
    requires k <= m <= |config| && StopDownTo(config, k, live).error.Some?
    ensures StopDownTo(config, m, live) == StopDownTo(config, k, live)
    decreases m
  {
    if m > k { StopDownToSticky(config, k, m - 1, live); }
  }

  /**
   * After k iterations without an error, exactly the first k components have
   * been added (none of them was running before), the entries already there
   * are untouched, and start functions were called in declaration order.
   */
  lemma {:induction false} StartedPrefix(config: Config, k: nat, live: Live)
    requires k <= |config| && StartUpTo(config, k, live).error.None?
    ensures KeysOf(config[..k]) !! live.Keys
    ensures StartUpTo(config, k, live).live.Keys == live.Keys + KeysOf(config[..k])
    ensures forall n :: n in live ==> StartUpTo(config, k, live).live[n] == live[n]
    ensures StartUpTo(config, k, live).calls == InOrder(config[..k])
  {
    if k > 0 {
      var prev := StartUpTo(config, k - 1, live);
      StartedPrefix(config, k - 1, live);
      KeysOfBack(config, k - 1);
      InOrderBack(config, k - 1);
      assert Start(config, prev.live, config[k - 1].0).Success?;
    } else {
      assert config[..0] == [];
    }
  }

  /**
   * The entry stored for the j-th component is the instance its start
   * function returned when called on the registry left by the j earlier
   * ones; the components started after it do not overwrite it.
   */
  lemma {:induction false} StartedEntry(config: Config, k: nat, live: Live, j: nat)
    requires j < k <= |config| && StartUpTo(config, k, live).error.None?
    ensures config[j].0 in StartUpTo(config, k, live).live
    ensures Start(config, StartUpTo(config, j, live).live, config[j].0)
            == Success((StartUpTo(config, j + 1, live).live, StartUpTo(config, k, live).live[config[j].0]))
  {
    var prev := StartUpTo(config, k - 1, live);
    assert prev.error.None?;
    if j < k - 1 {
      StartedEntry(config, k - 1, live, j);
      assert Start(config, prev.live, config[k - 1].0).Success?;
    }
  }

  /** A successful start_system adds every declared component, in declaration order, to the untouched registry. */
  lemma StartSystemSucceeds(config: Config, live: Live)
    requires StartAll(config, live).error.None?
    ensures KeysOf(config) !! live.Keys
    ensures StartAll(config, live).live.Keys == live.Keys + KeysOf(config)
    ensures forall n :: n in live ==> StartAll(config, live).live[n] == live[n]
    ensures StartAll(config, live).calls == InOrder(config)
  {
    StartedPrefix(config, |config|, live);
    assert config[..|config|] == config;
  }

  /**
   * A failing run of k iterations failed at one component f: the first f
   * components were started without error, the error is the one
   * start_component gave for f (a misuse error or a start failure), the
   * registry is the one the first f left (whose earlier entries are
   * untouched, by StartedPrefix), f and the components
   * after it that were not already running are absent, and no start
   * function after f's was called.
   */
  lemma {:induction false} StartFailedAt(config: Config, k: nat, live: Live) returns (f: nat)
    requires k <= |config| && StartUpTo(config, k, live).error.Some?
    ensures f < k && StartUpTo(config, f, live).error.None?
    ensures Start(config, StartUpTo(config, f, live).live, config[f].0) == Failure(StartUpTo(config, k, live).error.value)
    ensures StartUpTo(config, k, live).error.value.name == config[f].0
    ensures StartUpTo(config, k, live).live == StartUpTo(config, f, live).live
    ensures StartUpTo(config, k, live).live.Keys == live.Keys + KeysOf(config[..f])
    ensures forall j :: f <= j < |config| && config[j].0 !in live ==> config[j].0 !in StartUpTo(config, k, live).live
    ensures StartUpTo(config, k, live).calls
            == InOrder(config[..f]) + (if StartUpTo(config, k, live).error.value.StartFailed? then [StartCall(config[f].0)] else [])
  {
    f := FirstStartFailure(config, k, live);
    StartUpToSticky(config, f + 1, k, live);
    StartFailsAt(config, f, live);
  }

  /** The first iteration of start_system that raised. */
  lemma {:induction false} FirstStartFailure(config: Config, k: nat, live: Live) returns (f: nat)
    requires k <= |config| && StartUpTo(config, k, live).error.Some?
    ensures f < k && StartUpTo(config, f, live).error.None? && StartUpTo(config, f + 1, live).error.Some?
  {
    if StartUpTo(config, k - 1, live).error.Some? {
      f := FirstStartFailure(config, k - 1, live);
    } else {
      f := k - 1;
    }
  }

  /** The iteration of start_system for the component at f, the first to raise: the facts of StartFailedAt. */
  lemma StartFailsAt(config: Config, f: nat, live: Live)
    requires f < |config| && StartUpTo(config, f, live).error.None? && StartUpTo(config, f + 1, live).error.Some?
    ensures var r := StartUpTo(config, f + 1, live);
            && Start(config, StartUpTo(config, f, live).live, config[f].0) == Failure(r.error.value)
            && r.error.value.name == config[f].0
            && r.live == StartUpTo(config, f, live).live
            && r.live.Keys == live.Keys + KeysOf(config[..f])
            && (forall n :: n in live ==> r.live[n] == live[n])
            && (forall j :: f <= j < |config| && config[j].0 !in live ==> config[j].0 !in r.live)
            && r.calls == InOrder(config[..f]) + (if r.error.value.StartFailed? then [StartCall(config[f].0)] else [])
  {
    var prev := StartUpTo(config, f, live);
    var name := config[f].0;
    var res := Start(config, prev.live, name);
    StartUpToStep(config, f, live);
    StartedPrefix(config, f, live);
    assert StartAttempt(config, prev.live, name) == (if res.error.StartFailed? then [StartCall(name)] else []);
    forall j | f <= j < |config| ensures config[j].0 !in KeysOf(config[..f]) {
      KeysOfOutside(config, j, f);
    }
  }

  /**
   * Once stop_system's reversed loop has handled, without an error, the
   * components declared from position i on, exactly the running ones among
   * them have been removed, the other entries are untouched, and stop
   * functions were called last-declared first.
   */
  lemma {:induction false} StoppedSuffix(config: Config, i: nat, live: Live)
    requires i <= |config| && StopDownTo(config, |config| - i, live).error.None?
    ensures StopDownTo(config, |config| - i, live).live.Keys == live.Keys - KeysOf(config[i..])
    ensures forall n :: n in StopDownTo(config, |config| - i, live).live ==> StopDownTo(config, |config| - i, live).live[n] == live[n]
    ensures StopDownTo(config, |config| - i, live).calls == ReverseLive(config[i..], live)
    decreases |config| - i
  {
    if i == |config| {
      assert config[i..] == [];
    } else {
      StopStep(config, i, live);
      StoppedSuffix(config, i + 1, live);
      SuffixGrows(config, i, live, StopDownTo(config, |config| - (i + 1), live), StopDownTo(config, |config| - i, live));
    }
  }

  /**
   * The bookkeeping of one iteration in StoppedSuffix, on plain runs: a run
   * that has handled the components declared after i, followed by the step
   * for component i, has handled the components from i on.
   */
  lemma SuffixGrows(config: Config, i: nat, live: Live, prev: Run, r: Run)
    requires i < |config|
    requires prev.live.Keys == live.Keys - KeysOf(config[i + 1..])
    requires forall n :: n in prev.live ==> prev.live[n] == live[n]
    requires prev.calls == ReverseLive(config[i + 1..], live)
    requires r.live.Keys == prev.live.Keys - {config[i].0}
    requires forall n :: n in r.live ==> r.live[n] == prev.live[n]
    requires r.calls == prev.calls + (if config[i].0 in prev.live then [StopCall(config[i].0)] else [])
    ensures r.live.Keys == live.Keys - KeysOf(config[i..])
    ensures forall n :: n in r.live ==> r.live[n] == live[n]
    ensures r.calls == ReverseLive(config[i..], live)
  {
  }

  /**
   * The error-free iteration of stop_system for the component declared at i
   * removes it if it is running, calling its stop function, and skips it
   * otherwise.
   */
  lemma StopStep(config: Config, i: nat, live: Live)
    requires i < |config| && StopDownTo(config, |config| - i, live).error.None?
    ensures var prev := StopDownTo(config, |config| - (i + 1), live);
            var name := config[i].0;
            var r := StopDownTo(config, |config| - i, live);
            && prev.error.None?
            && r.live.Keys == prev.live.Keys - {name}
            && (forall n :: n in r.live ==> r.live[n] == prev.live[n])
            && r.calls == prev.calls + (if name in prev.live then [StopCall(name)] else [])
  {
  }

  /**
   * A successful stop_system removes every declared component that was
   * running, in reverse declaration order, and leaves undeclared entries.
   */
  lemma StopSystemSucceeds(config: Config, live: Live)
    requires StopAll(config, live).error.None?
    ensures StopAll(config, live).live.Keys == live.Keys - KeysOf(config)
    ensures forall n :: n in StopAll(config, live).live ==> StopAll(config, live).live[n] == live[n]
    ensures StopAll(config, live).calls == ReverseLive(config, live)
  {
    assert |config| - 0 == |config|;
    StoppedSuffix(config, 0, live);
    assert config[0..] == config;
  }

  /**
   * A failing run of stop_system failed at the component declared at f with
   * the error stop_component gave for it: it was running and is still
   * registered, no entry was changed or added, every running component declared
   * after it was stopped (last-declared first), and every one declared at or
   * before it is still registered with its instance.
   */
  lemma {:induction false} StopFailedAt(config: Config, k: nat, live: Live) returns (f: nat)
    requires k <= |config| && StopDownTo(config, k, live).error.Some?
    ensures |config| - k <= f < |config|
    ensures Stop(config, StopDownTo(config, |config| - (f + 1), live).live, config[f].0) == Failure(StopDownTo(config, k, live).error.value)
    ensures StopDownTo(config, k, live).error.value.name == config[f].0
    ensures config[f].0 in StopDownTo(config, k, live).live
    ensures StopDownTo(config, k, live).live.Keys == live.Keys - KeysOf(config[f + 1..])
    ensures forall n :: n in StopDownTo(config, k, live).live ==> n in live && StopDownTo(config, k, live).live[n] == live[n]
    ensures forall j :: 0 <= j <= f && config[j].0 in live ==>
              config[j].0 in StopDownTo(config, k, live).live && StopDownTo(config, k, live).live[config[j].0] == live[config[j].0]
    ensures StopDownTo(config, k, live).calls
            == ReverseLive(config[f + 1..], live) + (if StopDownTo(config, k, live).error.value.StopFailed? then [StopCall(config[f].0)] else [])
  {
    var i := |config| - k;
    StopDownToAt(config, i, k, live);
    f := FirstStopFailure(config, i, live);
    StopDownToSticky(config, |config| - f, k, live);
    StopFailsAt(config, f, live);
  }

  /** The component at which stop_system first raised, once the loop has reached position i. */
  lemma {:induction false} FirstStopFailure(config: Config, i: nat, live: Live) returns (f: nat)
    requires i <= |config| && StopDownTo(config, |config| - i, live).error.Some?
    ensures i <= f < |config|
    ensures StopDownTo(config, |config| - (f + 1), live).error.None? && StopDownTo(config, |config| - f, live).error.Some?
    decreases |config| - i
  {
    if StopDownTo(config, |config| - (i + 1), live).error.Some? {
      f := FirstStopFailure(config, i + 1, live);
    } else {
      f := i;
    }
  }

  /** The run that has handled the components from position i on, however its iteration count is written. */
  lemma StopDownToAt(config: Config, i: nat, k: nat, live: Live)
    requires i <= |config| && k == |config| - i
    ensures StopDownTo(config, k, live) == StopDownTo(config, |config| - i, live)
  {
  }

  /** The iteration of stop_system for the component at f, the first to raise: the facts of StopFailedAt. */
  lemma StopFailsAt(config: Config, f: nat, live: Live)
    requires f < |config|
    requires StopDownTo(config, |config| - (f + 1), live).error.None? && StopDownTo(config, |config| - f, live).error.Some?
    ensures var r := StopDownTo(config, |config| - f, live);
            && Stop(config, StopDownTo(config, |config| - (f + 1), live).live, config[f].0) == Failure(r.error.value)
            && r.error.value.name == config[f].0
            && config[f].0 in r.live
            && r.live.Keys == live.Keys - KeysOf(config[f + 1..])
            && (forall n :: n in r.live ==> n in live && r.live[n] == live[n])
            && (forall j :: 0 <= j <= f && config[j].0 in live ==> config[j].0 in r.live && r.live[config[j].0] == live[config[j].0])
            && r.calls == ReverseLive(config[f + 1..], live) + (if r.error.value.StopFailed? then [StopCall(config[f].0)] else [])
  {
    StopFailStep(config, f, live);
    StoppedSuffix(config, f + 1, live);
    EarlierKept(config, f, live, StopDownTo(config, |config| - (f + 1), live));
  }

  /**
   * A registry that has lost only running components declared after f, and
   * kept the instances of the rest, still holds every running component
   * declared at or before f with its instance.
   */
  lemma EarlierKept(config: Config, f: nat, live: Live, r: Run)
    requires f < |config|
    requires r.live.Keys == live.Keys - KeysOf(config[f + 1..])
    requires forall n :: n in r.live ==> r.live[n] == live[n]
    ensures forall j :: 0 <= j <= f && config[j].0 in live ==> config[j].0 in r.live && r.live[config[j].0] == live[config[j].0]
  {
  }

  /** The iteration of stop_system that first raises, at the component declared at f, leaves the registry as it was; that component is running and the error names it. */
  lemma StopFailStep(config: Config, f: nat, live: Live)
    requires f < |config|
    requires StopDownTo(config, |config| - (f + 1), live).error.None? && StopDownTo(config, |config| - f, live).error.Some?
    ensures var prev := StopDownTo(config, |config| - (f + 1), live);
            var name := config[f].0;
            var r := StopDownTo(config, |config| - f, live);
            && name in prev.live
            && r.live == prev.live
            && Stop(config, prev.live, name) == Failure(r.error.value)
            && r.error.value.name == name
            && r.calls == prev.calls + (if r.error.value.StopFailed? then [StopCall(name)] else [])
  {
  }


  lemma {:induction false} ReverseAllRunning(entries: seq<(Name, Spec)>, live: Live)
    requires KeysOf(entries) <= live.Keys
    ensures ReverseLive(entries, live) == Mirror(InOrder(entries))
  {
    if entries != [] {
      KeysOfFront(entries, 0);
      assert entries[0..] == entries;
      ReverseAllRunning(entries[1..], live);
      var s := InOrder(entries);
      assert s[0] == StartCall(entries[0].0) && s[1..] == InOrder(entries[1..]);
    }
  }

  /**
   * stop_system undoes start_system: when both succeed, the registry is
   * back to what it was before starting (empty, if it started empty), and
   * stop functions ran in exactly the reverse of the start order.
   */
  lemma SystemRoundTrip(config: Config, live: Live)
    requires StartAll(config, live).error.None?
    requires StopAll(config, StartAll(config, live).live).error.None?
    ensures StopAll(config, StartAll(config, live).live).live == live
    ensures StopAll(config, StartAll(config, live).live).calls == Mirror(StartAll(config, live).calls)
  {
    var started := StartAll(config, live).live;
    var stopped := StopAll(config, started).live;
    StartSystemSucceeds(config, live);
    StopSystemSucceeds(config, started);
    ReverseAllRunning(config, started);
    assert stopped.Keys == live.Keys;
  }
}
