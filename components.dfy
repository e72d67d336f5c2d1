/**
 * The data the orchestrator works on: the values it passes around without
 * looking inside, the registry of live components, a component's spec and
 * the ordered system configuration.
 */
module Components {
  import opened Wrappers

  type Name = string

  /**
   * A dynamic value as the orchestrator sees it: a component's declared
   * configuration, or the instance its start function returned.
   */
  datatype Value =
    | Null
    | Bool(b: bool)
    | Int(i: int)
    | Str(s: string)
    | Dict(fields: map<string, Value>)
    | Object(id: nat)

  /** The value a spec without a "config" entry hands to its start function. */
  const EmptyDict: Value := Dict(map[])

  /** The registry (the `state` dict that depys threads through every call): live instances keyed by component name. */
  type Live = map<Name, Value>

  /** What calling a user-supplied function gives: a return value, or an exception. */
  datatype Outcome<+T> = Returned(value: T) | Raised

  /** A start function receives the registry and the component's configuration. */
  type StartFn = (Live, Value) -> Outcome<Value>

  /** A stop function receives the stored instance; what it returns is ignored. */
  type StopFn = Value -> Outcome<Value>

  /** A component's spec: its "start", "stop" and "config" entries, each of which may be absent. */
  datatype Spec = Spec(start: Option<StartFn>, stop: Option<StopFn>, config: Option<Value>)

  predicate DistinctNames(entries: seq<(Name, Spec)>) {
    forall i, j :: 0 <= i < j < |entries| ==> entries[i].0 != entries[j].0
  }

  /** The system configuration: specs in declaration order, each name declared once. */
  type Config = entries: seq<(Name, Spec)> | DistinctNames(entries) witness []

  /** The declared names (`component in config` tests membership here). */
  function KeysOf(entries: seq<(Name, Spec)>): set<Name> {
    set i | 0 <= i < |entries| :: entries[i].0
  }

  /** `config.get(name)`: the spec declared under `name`, if any. */
  function Lookup(entries: seq<(Name, Spec)>, name: Name): (r: Option<Spec>)
    ensures r.Some? <==> name in KeysOf(entries)
  {
    if entries == [] then None
    else
      KeysOfFront(entries, 0);
      if entries[0].0 == name then Some(entries[0].1) else Lookup(entries[1..], name)
  }

  /** In a configuration, looking up the j-th declared name finds the j-th spec. */
  lemma {:induction false} LookupAt(entries: seq<(Name, Spec)>, j: nat)
    requires DistinctNames(entries) && j < |entries|
    ensures Lookup(entries, entries[j].0) == Some(entries[j].1)
  {
    if j > 0 {
      assert entries[0].0 != entries[j].0;
      assert entries[1..][j - 1] == entries[j];
      LookupAt(entries[1..], j - 1);
    }
  }

  /** The names from position k on: the k-th name and those after it. */
  lemma KeysOfFront(entries: seq<(Name, Spec)>, k: nat)
    requires k < |entries|
    ensures KeysOf(entries[k..]) == {entries[k].0} + KeysOf(entries[k + 1..])
  {
  }

  /** The names of the first k + 1 entries: those of the first k and the k-th. */
  lemma KeysOfBack(entries: seq<(Name, Spec)>, k: nat)
    requires k < |entries|
    ensures KeysOf(entries[..k + 1]) == KeysOf(entries[..k]) + {entries[k].0}
  {
  }

  /** A name declared at position j occurs nowhere before or after position j. */
  lemma KeysOfOutside(entries: seq<(Name, Spec)>, j: nat, k: nat)
    requires DistinctNames(entries) && j < |entries| && k <= |entries|
    ensures j >= k ==> entries[j].0 !in KeysOf(entries[..k])
    ensures j < k ==> entries[j].0 !in KeysOf(entries[k..])
  {
  }
}
