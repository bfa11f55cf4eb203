/**
 * The ingredient list of a recipe write request: the per-item `amount`
 * bound enforced by the field declaration and the list-level checks of
 * `RecipeWriteSerializer.validate` (empty list, repeated ingredient ids).
 */
module Ingredients {
  import opened Wrappers

  /** Smallest amount the `amount` integer field accepts. */
  const MinAmount := 1

  /** One `{id, amount}` item of the submitted `ingredients` list. */
  datatype IngredientAmount = IngredientAmount(id: int, amount: int)

  /** The validation errors the recipe serializer raises about its ingredients. */
  datatype IngredientError =
    | IngredientsMissing      // the `ingredients` key is absent from the request
    | AmountBelowMinimum      // some amount is below `MinAmount`
    | NoIngredients           // "a recipe must contain at least one ingredient"
    | RepeatedIngredients     // "ingredients must not repeat"

  predicate AmountsInRange(items: seq<IngredientAmount>) {
    forall k :: 0 <= k < |items| ==> items[k].amount >= MinAmount
  }

  predicate Distinct<T(==)>(s: seq<T>) {
    forall i, j :: 0 <= i < j < |s| ==> s[i] != s[j]
  }

  /** The `ingredients_id_list` the validator builds: the ids in submission order. */
  function IdsOf(items: seq<IngredientAmount>): (ids: seq<int>)
    ensures |ids| == |items|
    ensures forall k :: 0 <= k < |items| ==> ids[k] == items[k].id
  {
    seq(|items|, k requires 0 <= k < |items| => items[k].id)
  }

  predicate DistinctIds(items: seq<IngredientAmount>) {
    forall i, j :: 0 <= i < j < |items| ==> items[i].id != items[j].id
  }

  /** What a recipe's ingredient list must satisfy once it has been accepted. */
  predicate Accepted(items: seq<IngredientAmount>) {
    items != [] && AmountsInRange(items) && DistinctIds(items)
  }

  function SetOf<T(==)>(s: seq<T>): set<T> {
    set x | x in s
  }

  /**
   * Python's duplicate test `len(ids) != len(set(ids))` detects exactly the
   * sequences with a repeated element.
   */
  lemma {:induction false} SetOfCardinality<T>(s: seq<T>)
    ensures |SetOf(s)| <= |s|
    ensures |SetOf(s)| == |s| <==> Distinct(s)
  {
    if s == [] {
      assert SetOf(s) == {};
    } else {
      var t, x := s[..|s| - 1], s[|s| - 1];
      assert s == t + [x];
      assert SetOf(s) == SetOf(t) + {x};
      SetOfCardinality(t);
      if x in t {
        var i :| 0 <= i < |t| && t[i] == x;
        assert s[i] == s[|s| - 1];
        assert SetOf(s) == SetOf(t);
      } else {
        assert |SetOf(s)| == |SetOf(t)| + 1;
        if Distinct(t) {
          forall i, j | 0 <= i < j < |s| ensures s[i] != s[j] {
            if j < |s| - 1 {
              assert s[i] == t[i] && s[j] == t[j];
            } else {
              assert s[i] == t[i];
            }
          }
        } else {
          var i, j :| 0 <= i < j < |t| && t[i] == t[j];
          assert s[i] == s[j];
        }
      }
    }
  }

  lemma DistinctIdsOf(items: seq<IngredientAmount>)
    ensures Distinct(IdsOf(items)) <==> DistinctIds(items)
  {
  }

  /**
   * Validation of the submitted ingredient list, in the order the framework
   * runs it: the field check on every `amount` first, then `validate`, which
   * collects the ids in a loop, rejects an empty list and then a list whose
   * ids repeat. On success the list comes back unchanged.
   */
  method Validate(submitted: Option<seq<IngredientAmount>>)
    returns (r: Result<seq<IngredientAmount>, IngredientError>)
    ensures r == Failure(IngredientsMissing) <==> submitted.None?
    ensures r == Failure(AmountBelowMinimum) <==>
              submitted.Some? && !AmountsInRange(submitted.value)
    ensures r == Failure(NoIngredients) <==> submitted == Some([])
    ensures r == Failure(RepeatedIngredients) <==>
              submitted.Some? && submitted.value != [] &&
              AmountsInRange(submitted.value) && !DistinctIds(submitted.value)
    ensures r.Success? <==> submitted.Some? && Accepted(submitted.value)
    ensures r.Success? ==> r.value == submitted.value
  {
    if submitted.None? {
      return Failure(IngredientsMissing);
    }
    var items := submitted.value;
    if exists k :: 0 <= k < |items| && items[k].amount < MinAmount {
      return Failure(AmountBelowMinimum);
    }
    var ids: seq<int> := [];
    for i := 0 to |items|
      invariant |ids| == i
      invariant forall k :: 0 <= k < i ==> ids[k] == items[k].id
    {
      ids := ids + [items[i].id];
    }
    if items == [] {
      return Failure(NoIngredients);
    }
    assert ids == IdsOf(items);
    SetOfCardinality(ids);
    DistinctIdsOf(items);
    if |ids| != |SetOf(ids)| {
      return Failure(RepeatedIngredients);
    }
    return Success(items);
  }
}
