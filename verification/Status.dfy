/**
 Status conditions: how the controllers compute them and how Server-Side Apply merges them.
 */
module Status {
  import opened Prelude
  import opened BundleApi
  import opened ServerSideApply

  const SYNCED := "Synced"

  // ---------- Computing conditions ----------

  function Find(conditions: seq<Condition>, kind: string): Option<Condition> {
    if conditions == [] then None
    else if conditions[0].kind == kind then Some(conditions[0])
    else Find(conditions[1..], kind)
  }

  predicate UniqueKinds(conditions: seq<Condition>) {
    forall i, j :: 0 <= i < j < |conditions| ==> conditions[i].kind != conditions[j].kind
  }

  /** Equal in everything but the transition time. */
  predicate SameCondition(a: Condition, b: Condition) {
    a.(lastTransitionTime := b.lastTransitionTime) == b
  }

  predicate HasCondition(conditions: seq<Condition>, c: Condition) {
    Find(conditions, c.kind).Some? && SameCondition(Find(conditions, c.kind).value, c)
  }

  method BundleHasCondition(conditions: seq<Condition>, c: Condition) returns (found: bool)
    ensures found == HasCondition(conditions, c)
  {
    var i := 0;
    while i < |conditions|
      invariant 0 <= i <= |conditions|
      invariant Find(conditions, c.kind) == Find(conditions[i..], c.kind)
    {
      var e := conditions[i];
      if e.kind == c.kind {
        return e.status == c.status && e.reason == c.reason && e.message == c.message
               && e.observedGeneration == c.observedGeneration;
      }
      i := i + 1;
    }
    found := false;
  }

  /** The transition time of a condition that is set at `now`: it is carried over exactly when the
      existing condition of that type has the same status. */
  function TransitionTime(existing: seq<Condition>, c: Condition, now: int): int {
    match Find(existing, c.kind)
    case Some(e) => if e.status == c.status then e.lastTransitionTime else now
    case None => now
  }

  /** Overwrites the condition of the same type, or appends. */
  function Put(conditions: seq<Condition>, c: Condition): seq<Condition> {
    if conditions == [] then [c]
    else if conditions[0].kind == c.kind then [c] + conditions[1..]
    else [conditions[0]] + Put(conditions[1..], c)
  }

  lemma {:induction false} FindAbsent(conditions: seq<Condition>, kind: string)
    ensures Find(conditions, kind).None? <==> forall i :: 0 <= i < |conditions| ==> conditions[i].kind != kind
    ensures Find(conditions, kind).Some? ==> Find(conditions, kind).value in conditions
                                             && Find(conditions, kind).value.kind == kind
  {
    if conditions != [] {
      FindAbsent(conditions[1..], kind);
      assert forall i :: 0 < i < |conditions| ==> conditions[i] == conditions[1..][i - 1];
    }
  }

  /** The transition time, found by visiting all existing conditions. */
  method FindTransitionTime(existing: seq<Condition>, c: Condition, now: int) returns (time: int)
    requires UniqueKinds(existing)
    ensures time == TransitionTime(existing, c, now)
  {
    time := now;
    var i := 0;
    ghost var found := Find(existing, c.kind);
    FindAbsent(existing, c.kind);
    while i < |existing|
      invariant 0 <= i <= |existing|
      invariant time == if found.Some? && found.value in existing[..i] && found.value.status == c.status
                        then found.value.lastTransitionTime else now
    {
      var e := existing[i];
      if e.kind == c.kind {
        if e.status == c.status {
          time := e.lastTransitionTime;
        }
      }
      i := i + 1;
    }
  }

  method SetBundleCondition(existing: seq<Condition>, patch: seq<Condition>, c: Condition, now: int)
    returns (conditions: seq<Condition>)
    requires UniqueKinds(existing)
    ensures conditions == Put(patch, c.(lastTransitionTime := TransitionTime(existing, c, now)))
  {
    var time := FindTransitionTime(existing, c, now);
    var new_ := c.(lastTransitionTime := time);
    var i := 0;
    while i < |patch|
      invariant 0 <= i <= |patch|
      invariant Put(patch, new_) == patch[..i] + Put(patch[i..], new_)
    {
      if patch[i].kind == c.kind {
        return patch[i := new_];
      }
      i := i + 1;
    }
    conditions := patch + [new_];
  }

  /** The package version to report, and whether that is news. */
  method SetDefaultCAVersion(current: string, required: string) returns (version: string, changed: bool)
    ensures version == required
    ensures changed == (current != required)
  {
    if |required| == 0 && current == "" {
      return current, false;
    }
    if |required| == 0 && current != "" {
      return "", true;
    }
    if current == "" || current != required {
      return required, true;
    }
    return current, false;
  }

  // ---------- Server-Side Apply of conditions ----------

  /** The API server merges the list of conditions by type, so that it is stored here by type. */
  type StoredConditions = map<string, Owned<Condition>>

  /** The list a client reads back: one condition for each type, in any order. */
  ghost predicate ReadAs(stored: StoredConditions, conditions: seq<Condition>) {
    && UniqueKinds(conditions)
    && forall kind :: Find(conditions, kind) == if kind in stored then Some(stored[kind].value) else None
  }

  /** The manager applies a status that lists the single condition `c`: `c` is taken over, and every
      other condition loses the manager as an owner and disappears if it had no other. */
  function ApplyCondition(stored: StoredConditions, c: Condition): StoredConditions {
    Apply(stored, map[c.kind := c])
  }
}
