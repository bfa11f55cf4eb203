/**
 * Recipe creation and update as performed by `RecipeWriteSerializer`
 * (`_add_ingredients`, `create`, `update`) over an in-memory store: a table
 * of recipes keyed by id and the join table linking each recipe to its
 * ingredients with an amount.
 */
module RecipeStore {
  import opened Wrappers
  import opened Ingredients

  type UserId = int
  type RecipeId = nat

  /** A persisted recipe row; the author is fixed when the row is created. */
  datatype Recipe = Recipe(author: UserId, name: string, image: string, text: string, cookingTime: int)

  /** The scalar fields of a validated create request (the author comes from the requester). */
  datatype RecipeFields = RecipeFields(name: string, image: string, text: string, cookingTime: int)

  /** The scalar fields of a validated update request; `None` means the field was not sent. */
  datatype FieldChanges = FieldChanges(
    image: Option<string>, name: Option<string>, text: Option<string>, cookingTime: Option<int>)

  /** One row of the recipe-ingredient join table. */
  datatype JoinRecord = JoinRecord(recipe: RecipeId, ingredient: int, amount: int)

  /** The join rows `_add_ingredients` builds for `recipe`, one per submitted item. */
  function RecordsFor(recipe: RecipeId, items: seq<IngredientAmount>): (rs: seq<JoinRecord>)
    ensures |rs| == |items|
    ensures forall k :: 0 <= k < |items| ==>
              rs[k] == JoinRecord(recipe, items[k].id, items[k].amount)
  {
    seq(|items|, k requires 0 <= k < |items| => JoinRecord(recipe, items[k].id, items[k].amount))
  }

  /** The `{id, amount}` items a list of join rows stands for. */
  function Amounts(rs: seq<JoinRecord>): (items: seq<IngredientAmount>)
    ensures |items| == |rs|
    ensures forall k :: 0 <= k < |rs| ==>
              items[k] == IngredientAmount(rs[k].ingredient, rs[k].amount)
  {
    seq(|rs|, k requires 0 <= k < |rs| => IngredientAmount(rs[k].ingredient, rs[k].amount))
  }

  /** Reading back the rows written for a list gives the list again. */
  lemma AmountsOfRecordsFor(recipe: RecipeId, items: seq<IngredientAmount>)
    ensures Amounts(RecordsFor(recipe, items)) == items
  {
  }

  /** The join rows of `recipe`, in table order. */
  function RecordsOf(links: seq<JoinRecord>, recipe: RecipeId): (rs: seq<JoinRecord>)
    ensures |rs| <= |links|
    ensures forall k :: 0 <= k < |rs| ==> rs[k].recipe == recipe
    ensures (forall k :: 0 <= k < |links| ==> links[k].recipe != recipe) ==> rs == []
  {
    if links == [] then []
    else
      var last := links[|links| - 1];
      RecordsOf(links[..|links| - 1], recipe) + (if last.recipe == recipe then [last] else [])
  }

  /** The rows read for `recipe` are exactly the join rows that name it. */
  lemma {:induction false} RecordsOfMembers(links: seq<JoinRecord>, recipe: RecipeId)
    ensures forall x :: x in RecordsOf(links, recipe) <==> x in links && x.recipe == recipe
  {
    if links != [] {
      var init, last := links[..|links| - 1], links[|links| - 1];
      RecordsOfMembers(init, recipe);
      assert links == init + [last];
    }
  }

  lemma {:induction false} RecordsOfAppend(a: seq<JoinRecord>, b: seq<JoinRecord>, recipe: RecipeId)
    ensures RecordsOf(a + b, recipe) == RecordsOf(a, recipe) + RecordsOf(b, recipe)
  {
    if b == [] {
      assert a + b == a;
    } else {
      var b', last := b[..|b| - 1], b[|b| - 1];
      assert (a + b)[..|a + b| - 1] == a + b';
      RecordsOfAppend(a, b', recipe);
    }
  }

  /** The rows written for one recipe belong to it and to no other recipe. */
  lemma RecordsOfRecordsFor(recipe: RecipeId, items: seq<IngredientAmount>, other: RecipeId)
    ensures RecordsOf(RecordsFor(recipe, items), recipe) == RecordsFor(recipe, items)
    ensures other != recipe ==> RecordsOf(RecordsFor(recipe, items), other) == []
  {
    RecordsOfOwnRows(recipe, items);
    if other != recipe {
      RecordsOfForeignRows(recipe, items, other);
    }
  }

  lemma {:induction false} RecordsOfOwnRows(recipe: RecipeId, items: seq<IngredientAmount>)
    ensures RecordsOf(RecordsFor(recipe, items), recipe) == RecordsFor(recipe, items)
  {
    if items != [] {
      var rows := RecordsFor(recipe, items);
      var last := rows[|rows| - 1];
      RecordsForSnoc(recipe, items);
      RecordsOfOwnRows(recipe, items[..|items| - 1]);
      assert RecordsOf(rows, recipe) == RecordsOf(rows[..|rows| - 1], recipe) + [last];
      assert rows == rows[..|rows| - 1] + [last];
    }
  }

  lemma {:induction false} RecordsOfForeignRows(recipe: RecipeId, items: seq<IngredientAmount>, other: RecipeId)
    requires other != recipe
    ensures RecordsOf(RecordsFor(recipe, items), other) == []
  {
    if items != [] {
      var rows := RecordsFor(recipe, items);
      RecordsForSnoc(recipe, items);
      RecordsOfForeignRows(recipe, items[..|items| - 1], other);
      assert RecordsOf(rows, other) == RecordsOf(rows[..|rows| - 1], other);
    }
  }


  /** The rows for a non-empty list are the rows for all but its last item, then one more. */
  lemma RecordsForSnoc(recipe: RecipeId, items: seq<IngredientAmount>)
    requires items != []
    ensures var rows := RecordsFor(recipe, items);
            rows[..|rows| - 1] == RecordsFor(recipe, items[..|items| - 1]) && rows[|rows| - 1].recipe == recipe
  {
  }



  /** The join table after `instance.ingredients.clear()` for `recipe`. */
  function WithoutRecipe(links: seq<JoinRecord>, recipe: RecipeId): (rest: seq<JoinRecord>)
    ensures |rest| <= |links|
    ensures forall k :: 0 <= k < |rest| ==> rest[k].recipe != recipe && rest[k] in links
  {
    if links == [] then []
    else
      var last := links[|links| - 1];
      WithoutRecipe(links[..|links| - 1], recipe) + (if last.recipe == recipe then [] else [last])
  }

  /** Clearing one recipe's rows leaves every other recipe's rows as they were. */
  lemma {:induction false} WithoutRecipeKeepsOthers(links: seq<JoinRecord>, recipe: RecipeId, other: RecipeId)
    ensures RecordsOf(WithoutRecipe(links, recipe), recipe) == []
    ensures other != recipe ==> RecordsOf(WithoutRecipe(links, recipe), other) == RecordsOf(links, other)
  {
    if links != [] {
      var init, last := links[..|links| - 1], links[|links| - 1];
      var tail := if last.recipe == recipe then [] else [last];
      WithoutRecipeKeepsOthers(init, recipe, other);
      RecordsOfAppend(WithoutRecipe(init, recipe), tail, other);
      assert [last][..0] == [];
    }
  }

  /**
   * The store the serializer writes through. `recipes` and `links` play the
   * recipe and join tables; `nextId` is where the next recipe id comes from.
   */
  class Store {
    var recipes: map<RecipeId, Recipe>
    var links: seq<JoinRecord>
    var nextId: RecipeId

    /** Ids are below `nextId` and every join row points at an existing recipe. */
    ghost predicate Consistent()
      reads this
    {
      && (forall id :: id in recipes ==> id < nextId)
      && (forall k :: 0 <= k < |links| ==> links[k].recipe in recipes)
    }

    /** The ingredient list of `recipe` as the read view shows it. */
    function IngredientsOf(recipe: RecipeId): seq<IngredientAmount>
      reads this
    {
      Amounts(RecordsOf(links, recipe))
    }

    /** Every stored recipe carries an ingredient list that validation accepts. */
    ghost predicate Valid()
      reads this
    {
      Consistent() && forall id :: id in recipes ==> Accepted(IngredientsOf(id))
    }

    constructor ()
      ensures Valid()
      ensures recipes == map[] && links == [] && nextId == 0
    {
      recipes, links, nextId := map[], [], 0;
    }

    /**
     * `_add_ingredients`: build one join row per item in a loop, then insert
     * them all at the end of the join table.
     */
    method AddIngredients(recipe: RecipeId, items: seq<IngredientAmount>)
      requires Consistent() && recipe in recipes
      modifies this`links
      ensures Consistent()
      ensures links == old(links) + RecordsFor(recipe, items)
    {
      var data: seq<JoinRecord> := [];
      for i := 0 to |items|
        invariant |data| == i
        invariant forall k :: 0 <= k < i ==> data[k] == JoinRecord(recipe, items[k].id, items[k].amount)
      {
        data := data + [JoinRecord(recipe, items[i].id, items[i].amount)];
      }
      assert data == RecordsFor(recipe, items);
      links := links + data;
    }

    /** `instance.ingredients.clear()`: drop every join row of `recipe`. */
    method ClearIngredients(recipe: RecipeId)
      requires Consistent()
      modifies this`links
      ensures Consistent()
      ensures links == WithoutRecipe(old(links), recipe)
    {
      ghost var before := links;
      links := WithoutRecipe(links, recipe);
      forall k | 0 <= k < |links| ensures links[k].recipe in recipes {
        var j :| 0 <= j < |before| && before[j] == links[k];
      }
    }

    /** `instance.save()`: write the recipe row back under its existing id. */
    method Save(id: RecipeId, instance: Recipe)
      requires Consistent() && id in recipes
      modifies this`recipes
      ensures Consistent()
      ensures recipes == old(recipes)[id := instance]
    {
      recipes := recipes[id := instance];
    }

    /**
     * `create`: insert a recipe authored by the requester, then its join rows.
     * The new recipe's ingredients are exactly the submitted list, in order;
     * no other recipe gains or loses a join row.
     */
    method Create(author: UserId, fields: RecipeFields, items: seq<IngredientAmount>)
      returns (id: RecipeId)
      requires Valid() && Accepted(items)
      modifies this
      ensures Valid()
      ensures id !in old(recipes)
      ensures recipes == old(recipes)[id := Recipe(author, fields.name, fields.image, fields.text, fields.cookingTime)]
      ensures RecordsOf(links, id) == RecordsFor(id, items)
      ensures IngredientsOf(id) == items
      ensures forall other :: other != id ==> RecordsOf(links, other) == RecordsOf(old(links), other)
    {
      id := nextId;
      recipes := recipes[id := Recipe(author, fields.name, fields.image, fields.text, fields.cookingTime)];
      nextId := nextId + 1;
      AddIngredients(id, items);
      NewRowsOnly(old(links), id, items);
      assert RecordsOf(old(links), id) == [] by {
        assert forall k :: 0 <= k < |old(links)| ==> old(links)[k].recipe != id;
      }
      AmountsOfRecordsFor(id, items);
      WriteKeepsAccepted(recipes, old(links), links, id, items);
    }

    /**
     * `update`: take each of image, name, text and cooking time from the
     * request when it was sent and keep the old value otherwise, leave the
     * author alone, clear the recipe's join rows, save, and insert the
     * submitted list afresh.
     */
    method Update(id: RecipeId, changes: FieldChanges, items: seq<IngredientAmount>)
      requires Valid() && id in recipes && Accepted(items)
      modifies this
      ensures Valid()
      ensures recipes.Keys == old(recipes.Keys)
      ensures nextId == old(nextId)
      ensures recipes[id].author == old(recipes[id].author)
      ensures recipes[id].image == changes.image.GetOr(old(recipes[id].image))
      ensures recipes[id].name == changes.name.GetOr(old(recipes[id].name))
      ensures recipes[id].text == changes.text.GetOr(old(recipes[id].text))
      ensures recipes[id].cookingTime == changes.cookingTime.GetOr(old(recipes[id].cookingTime))
      ensures forall other :: other in old(recipes) && other != id ==> recipes[other] == old(recipes[other])
      ensures RecordsOf(links, id) == RecordsFor(id, items)
      ensures IngredientsOf(id) == items
      ensures forall other :: other != id ==> RecordsOf(links, other) == RecordsOf(old(links), other)
    {
      var instance := recipes[id];
      instance := instance.(image := changes.image.GetOr(instance.image));
      instance := instance.(name := changes.name.GetOr(instance.name));
      instance := instance.(text := changes.text.GetOr(instance.text));
      instance := instance.(cookingTime := changes.cookingTime.GetOr(instance.cookingTime));
      ghost var before := links;
      ClearIngredients(id);
      Save(id, instance);
      AddIngredients(id, items);
      ReplacedRows(before, id, items);
      AmountsOfRecordsFor(id, items);
      WriteKeepsAccepted(recipes, before, links, id, items);
    }
  }

  /**
   * Writing an accepted list as one recipe's rows, leaving every other
   * recipe's rows alone, keeps every recipe's ingredient list accepted.
   */
  lemma WriteKeepsAccepted(recipes: map<RecipeId, Recipe>, before: seq<JoinRecord>, after: seq<JoinRecord>,
                           recipe: RecipeId, items: seq<IngredientAmount>)
    requires forall id :: id in recipes && id != recipe ==> Accepted(Amounts(RecordsOf(before, id)))
    requires forall id :: id != recipe ==> RecordsOf(after, id) == RecordsOf(before, id)
    requires RecordsOf(after, recipe) == RecordsFor(recipe, items) && Accepted(items)
    ensures forall id :: id in recipes ==> Accepted(Amounts(RecordsOf(after, id)))
  {
    AmountsOfRecordsFor(recipe, items);
  }

  /** Appending the rows for `recipe` adds exactly those rows to `recipe` and none to others. */
  lemma NewRowsOnly(before: seq<JoinRecord>, recipe: RecipeId, items: seq<IngredientAmount>)
    ensures RecordsOf(before + RecordsFor(recipe, items), recipe) ==
            RecordsOf(before, recipe) + RecordsFor(recipe, items)
    ensures forall other :: other != recipe ==>
              RecordsOf(before + RecordsFor(recipe, items), other) == RecordsOf(before, other)
  {
    RecordsOfAppend(before, RecordsFor(recipe, items), recipe);
    RecordsOfRecordsFor(recipe, items, recipe);
    forall other | other != recipe
      ensures RecordsOf(before + RecordsFor(recipe, items), other) == RecordsOf(before, other)
    {
      RecordsOfAppend(before, RecordsFor(recipe, items), other);
      RecordsOfRecordsFor(recipe, items, other);
    }
  }

  /** Clearing a recipe's rows and appending new ones leaves exactly the new ones for it. */
  lemma ReplacedRows(before: seq<JoinRecord>, recipe: RecipeId, items: seq<IngredientAmount>)
    ensures RecordsOf(WithoutRecipe(before, recipe) + RecordsFor(recipe, items), recipe) ==
            RecordsFor(recipe, items)
    ensures forall other :: other != recipe ==>
              RecordsOf(WithoutRecipe(before, recipe) + RecordsFor(recipe, items), other) ==
              RecordsOf(before, other)
  {
    var cleared := WithoutRecipe(before, recipe);
    NewRowsOnly(cleared, recipe, items);
    WithoutRecipeKeepsOthers(before, recipe, recipe);
    forall other | other != recipe
      ensures RecordsOf(cleared + RecordsFor(recipe, items), other) == RecordsOf(before, other)
    {
      WithoutRecipeKeepsOthers(before, recipe, other);
    }
  }
}
