/**
 Server-Side Apply as the API server performs it: an object is a map from fields to values, each with
 the field managers that own it.
 */
module ServerSideApply {

  /** The field manager of both controllers. */
  const MANAGER := "trust-manager"

  datatype Owned<+V> = Owned(value: V, owners: set<string>)

  /** The manager force-applies exactly `patch`: listed fields are set, fields it owned alone and no
      longer lists disappear, fields of others stay. */
  function Apply<K, V(==)>(fields: map<K, Owned<V>>, patch: map<K, V>): map<K, Owned<V>> {
    map k | k in fields.Keys + patch.Keys && (k in patch || fields[k].owners != {MANAGER}) ::
      if k !in patch then fields[k].(owners := fields[k].owners - {MANAGER})
      else Owned(patch[k],
                 if k in fields && fields[k].value == patch[k] then fields[k].owners + {MANAGER} else {MANAGER})
  }

  /** Without force a patch is a conflict when it changes a field that another manager owns. */
  predicate Conflicts<K, V(==)>(fields: map<K, Owned<V>>, patch: map<K, V>) {
    exists k :: k in patch && k in fields && fields[k].value != patch[k] && fields[k].owners - {MANAGER} != {}
  }

  function ManagedFields<K, V>(fields: map<K, Owned<V>>): set<K> {
    set k | k in fields && MANAGER in fields[k].owners
  }

  /** Some field belongs to another field manager, or to nobody. */
  predicate HasForeignField<K(!new), V>(fields: map<K, Owned<V>>) {
    exists k :: k in fields && fields[k].owners != {MANAGER}
  }

  /** The manager owns exactly the fields it lists, with the values it lists. */
  lemma AppliedAsListed<K, V>(fields: map<K, Owned<V>>, patch: map<K, V>)
    ensures ManagedFields(Apply(fields, patch)) == patch.Keys
    ensures forall k :: k in patch ==> k in Apply(fields, patch) && Apply(fields, patch)[k].value == patch[k]
  {
  }

  /** Applying the same patch twice is applying it once. */
  lemma ApplyTwice<K, V>(fields: map<K, Owned<V>>, patch: map<K, V>)
    ensures Apply(Apply(fields, patch), patch) == Apply(fields, patch)
  {
    var once := Apply(fields, patch);
    forall k | k in once
      ensures k in patch || once[k].owners != {MANAGER}
      ensures k in patch ==> MANAGER in once[k].owners && once[k].owners + {MANAGER} == once[k].owners
      ensures k !in patch ==> once[k].owners - {MANAGER} == once[k].owners
    {
    }
  }

  /** A field that another manager owns survives every patch that does not list it, with its value and
      all its other owners. */
  lemma ForeignFieldSurvives<K, V>(fields: map<K, Owned<V>>, patch: map<K, V>, k: K)
    requires k in fields && k !in patch && fields[k].owners != {MANAGER}
    ensures k in Apply(fields, patch)
    ensures Apply(fields, patch)[k] == fields[k].(owners := fields[k].owners - {MANAGER})
  {
  }

  /** A listed field has the listed value; who owned it with that value owns it still, beside the manager, and nobody
      else does. */
  lemma ListedFieldIsShared<K, V>(fields: map<K, Owned<V>>, patch: map<K, V>, k: K, owner: string)
    requires k in patch
    ensures k in Apply(fields, patch) && Apply(fields, patch)[k].value == patch[k]
    ensures owner in Apply(fields, patch)[k].owners <==>
            owner == MANAGER || (k in fields && fields[k].value == patch[k] && owner in fields[k].owners)
  {
  }

  /** A field that is not listed goes if and only if the manager owned it alone, and none appears. */
  lemma UnlistedFieldGoes<K, V>(fields: map<K, Owned<V>>, patch: map<K, V>, k: K)
    requires k !in patch
    ensures k in Apply(fields, patch) <==> k in fields && fields[k].owners != {MANAGER}
  {
  }

  function Values<K, V>(fields: map<K, Owned<V>>): map<K, V> {
    map k | k in fields :: fields[k].value
  }

  /** Withdrawing everything keeps the content if and only if the manager owned no field alone. */
  lemma WithdrawalKeepsContent<K, V>(fields: map<K, Owned<V>>)
    ensures Values(Apply(fields, map[])) == Values(fields) <==>
            forall k :: k in fields ==> fields[k].owners != {MANAGER}
    ensures ManagedFields(Apply(fields, map[])) == {}
    ensures !Conflicts<K, V>(fields, map[])
  {
    var left := Apply(fields, map[]);
    if Values(left) == Values(fields) {
      forall k | k in fields
        ensures fields[k].owners != {MANAGER}
      {
        assert k in Values(fields);
        assert k in Values(left);
      }
    }
  }

  /** To a manager that owns nothing, withdrawing is no change at all. */
  lemma NothingToWithdraw<K, V>(fields: map<K, Owned<V>>)
    requires ManagedFields(fields) == {}
    ensures Apply(fields, map[]) == fields
  {
    forall k | k in fields
      ensures MANAGER !in fields[k].owners && fields[k].owners - {MANAGER} == fields[k].owners
    {
      assert k !in ManagedFields(fields);
    }
  }
}
