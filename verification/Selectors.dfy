/**
 What label selectors mean: an account of `LabelSelector` in terms of single labels, on which everything
 that is said about selected objects and namespaces can rest.
 */
module Selectors {
  import opened BundleApi

  predicate Carries(labels: Labels, key: string, value: string) {
    key in labels && labels[key] == value
  }

  /** One expression: some listed value, none of them, any value, or no value. */
  ghost predicate Fulfils(labels: Labels, r: Requirement) {
    match r.operator
    case "In" => exists v :: v in r.values && Carries(labels, r.key, v)
    case "NotIn" => forall v :: v in r.values ==> !Carries(labels, r.key, v)
    case "Exists" => exists v :: Carries(labels, r.key, v)
    case "DoesNotExist" => forall v :: !Carries(labels, r.key, v)
    case _ => false
  }

  /** Every listed label is there with its value, and every expression is fulfilled. */
  ghost predicate Satisfies(labels: Labels, selector: LabelSelector) {
    && (forall k, v :: Carries(selector.matchLabels, k, v) ==> Carries(labels, k, v))
    && forall r :: r in selector.matchExpressions ==> Fulfils(labels, r)
  }

  /** Two operators need values, two must have none, and there are no others. */
  predicate Usable(selector: LabelSelector) {
    forall r :: r in selector.matchExpressions ==>
      if r.values == [] then r.operator in {"Exists", "DoesNotExist"} else r.operator in {"In", "NotIn"}
  }

  lemma RequirementMeans(r: Requirement, labels: Labels)
    requires r.Valid()
    ensures r.Matches(labels) <==> Fulfils(labels, r)
  {
    if r.key in labels {
      assert Carries(labels, r.key, labels[r.key]);
    }
  }

  /** A selector can be used iff its operators have the values they need, and then it matches exactly the labels
      that satisfy it. */
  lemma SelectorMeans(selector: LabelSelector, labels: Labels)
    ensures selector.Valid() <==> Usable(selector)
    ensures selector.Valid() ==> (selector.Matches(labels) <==> Satisfies(labels, selector))
  {
    var all := selector.matchExpressions;
    assert forall i :: 0 <= i < |all| ==> all[i] in all;
    assert forall k :: k in selector.matchLabels ==> Carries(selector.matchLabels, k, selector.matchLabels[k]);
    assert selector.Valid() <==> Usable(selector) by {
      forall i | 0 <= i < |all| && Usable(selector)
        ensures all[i].Valid()
      {
        assert all[i] in all;
      }
    }
    hide Fulfils;
    forall i | 0 <= i < |all| && selector.Valid()
      ensures all[i].Matches(labels) <==> Fulfils(labels, all[i])
    {
      RequirementMeans(all[i], labels);
    }
  }
}
