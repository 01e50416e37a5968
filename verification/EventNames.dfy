/** The event names and their indices (inc/robflex_event.h). */
module EventNames {
  import opened Context

  const EVENT_NONE := 0

  const EVENT_COUNT := 8

  const EVENT_NAMES: seq<string> := [
    "obstacle_dense", "pedestrian_dense", "high_speed", "cruise_normal",
    "stationary", "interaction", "awaiting_command", "emergency_stop"]

  /** robflex_get_event_idx: a null or unknown name maps to EVENT_NONE. */
  method GetEventIdx(name: Option<string>) returns (idx: nat)
    ensures idx == EventIdx(name)
  {
    if name.None? {
      return EVENT_NONE;
    }
    for i := 0 to |EVENT_NAMES|
      invariant forall j :: 0 <= j < i ==> EVENT_NAMES[j] != name.value
    {
      if name.value == EVENT_NAMES[i] {
        NamesDistinct();
        return i + 1;
      }
    }
    return EVENT_NONE;
  }

  lemma NamesDistinct()
    ensures forall i, j :: 0 <= i < j < |EVENT_NAMES| ==> EVENT_NAMES[i] != EVENT_NAMES[j]
  {
  }

  /** The index whose name this is. */
  function EventIdx(name: Option<string>): nat {
    if name.Some? && name.value in EVENT_NAMES then
      NamesDistinct();
      (var i: nat :| i < |EVENT_NAMES| && EVENT_NAMES[i] == name.value; i) + 1
    else
      EVENT_NONE
  }

  /** Indices 1 to 8 are the known names, each of its own. */
  lemma KnownNames(name: Option<string>)
    ensures EventIdx(name) <= EVENT_COUNT == |EVENT_NAMES|
    ensures EventIdx(name) == EVENT_NONE <==> name.None? || name.value !in EVENT_NAMES
    ensures forall i :: 0 <= i < EVENT_COUNT ==> EventIdx(Some(EVENT_NAMES[i])) == i + 1
  {
    NamesDistinct();
  }
}
