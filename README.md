# Foodgram serializers — a Dafny model

This project models the business logic carried by the API serializers of the
Foodgram recipe-sharing backend (`backend/foodgram/api/serializers.py`):

- **Ingredient validation** of a recipe write request (`Ingredients`): each
  `amount` must be at least 1 (the field declaration), the list must not be
  empty and its ingredient ids must not repeat (`RecipeWriteSerializer.validate`,
  whose duplicate test is Python's `len(ids) != len(set(ids))`).
- **Recipe create and update** over an in-memory store (`RecipeStore`): a class
  holding the recipe table (a map from id to row), the recipe–ingredient join
  table (a sequence of rows in insertion order) and the next free id.
  `AddIngredients` builds the join rows in a loop and bulk-inserts them;
  `Create` inserts a recipe authored by the requester and its rows; `Update`
  takes each scalar field from the request when sent, keeps the author, clears
  the recipe's join rows and inserts the new list. The store invariant says
  every recipe has an ingredient list that validation accepts.
- **Membership validators** for favorites, the shopping list and subscriptions
  (`Membership`): the checks on POST (already present, and for subscriptions
  following yourself, checked after the duplicate check) and DELETE (absent),
  together with the insert/delete they guard. Tables are sequences of
  (user, target) rows; the lemmas show that a guarded change keeps each table
  free of repeated rows and the follow table free of self-subscriptions.
- **Values computed on read** (`ReadViews`): `is_subscribed` (both variants),
  `is_favorited` / `is_in_shopping_cart`, the followed author's recipes cut to
  `recipes_limit`, and `recipes_count`.
- **Data-URI header parsing** of `Base64ImageField.to_internal_value`
  (`DataUri`): Python's `str.split` is modelled exactly (round trip through
  `join`, no part contains the separator), the extension is the text after the
  last `/`, and the file name is `temp.<ext>`. The data-URI form is that of
  section 3 of RFC 2397; the base64 payload (section 4 of RFC 4648) is opaque.

The read views take the recipe table as a sequence of rows in the order the
recipe query returns them, separately from the `Store`, whose recipe table is a
map keyed by id and carries no order; `recipes` depends on that order.

`IsMarked` and `MarkFlagFollowsTransition` model the `get_is_favorited` and
`get_is_in_shopping_cart` methods of the write serializer; its
`to_representation` hands the output to the read serializer, whose
`is_favorited` / `is_in_shopping_cart` values are read-only fields filled
outside this file, so the flags actually served are computed elsewhere.

Requester identity, HTTP method, target ids and the `recipes_limit` value are
explicit parameters; the Russian error messages are distinct error constructors.

Two behaviours of the code are easy to miss:
- A string that starts with `data:image` but does not split into exactly two
  parts on `;base64,` makes the tuple unpacking raise `ValueError`, which is not
  a validation error; the model gives it its own error, `UnpackMismatch`.
- Only the prefix `data:image` is checked, not `data:image/`; a header with no
  `/` yields the whole header as the extension.

## Model

| member | source | states |
|---|---|---|
| `Ingredients.Validate` | backend/foodgram/api/serializers.py:105-116 | missing list, amount below 1, empty list and repeated ids each fail exactly in their own case, in the framework's order; success exactly when the list is accepted, returning it unchanged |
| `Ingredients.SetOfCardinality` | backend/foodgram/api/serializers.py:113 | `len(set(ids)) <= len(ids)`, with equality exactly when no id repeats |
| `Ingredients.DistinctIdsOf` | backend/foodgram/api/serializers.py:107-109 | the collected id list has no repeats exactly when no two items share an ingredient id |
| `RecipeStore.AmountsOfRecordsFor` | backend/foodgram/api/serializers.py:133-141 | reading back the join rows written for a list gives the same ids and amounts in the same order |
| `RecipeStore.RecordsOf` | backend/foodgram/api/serializers.py:79-80 | a recipe's join rows all belong to it, no more of them than the table holds; none when no row names it |
| `RecipeStore.RecordsOfMembers` | backend/foodgram/api/serializers.py:79-80 | a row is read for a recipe exactly when it is in the join table and names that recipe |
| `RecipeStore.RecordsOfAppend` | backend/foodgram/api/serializers.py:141 | a bulk insert appends to each recipe's rows without disturbing the earlier ones |
| `RecipeStore.RecordsOfRecordsFor` | backend/foodgram/api/serializers.py:133-140 | the rows built for a recipe belong to it and to no other recipe |
| `RecipeStore.WithoutRecipe` | backend/foodgram/api/serializers.py:156 | clearing leaves only rows of other recipes, all from the old table |
| `RecipeStore.WithoutRecipeKeepsOthers` | backend/foodgram/api/serializers.py:156 | after clearing, the recipe has no rows and every other recipe has exactly its old rows |
| `RecipeStore.NewRowsOnly` | backend/foodgram/api/serializers.py:141-146 | inserting a recipe's rows adds exactly those rows to it and none to any other recipe |
| `RecipeStore.ReplacedRows` | backend/foodgram/api/serializers.py:155-158 | clear-then-insert leaves exactly the submitted rows for the recipe and the old rows for every other |
| `RecipeStore.Store.ClearIngredients` | backend/foodgram/api/serializers.py:156 | the join table loses exactly the rows of the recipe; every remaining row still points at an existing recipe |
| `RecipeStore.Store.Save` | backend/foodgram/api/serializers.py:157 | the recipe row is replaced under its own id and nothing else in the recipe table changes |
| `RecipeStore.Store.AddIngredients` | backend/foodgram/api/serializers.py:133-141 | the join table afterwards is the old one followed by one row per item, same id and amount, same order |
| `RecipeStore.Store.Create` | backend/foodgram/api/serializers.py:143-147 | a fresh id, a row authored by the requester, ingredients exactly the submitted list, other recipes' rows unchanged, store invariant kept |
| `RecipeStore.Store.Update` | backend/foodgram/api/serializers.py:149-159 | each of image, name, text, cooking time is the sent value or the old one; author, the id counter and other recipes unchanged; ingredients exactly the submitted list with no old row left; store invariant kept |
| `Membership.ValidateMark` | backend/foodgram/api/serializers.py:177-194 | fails exactly on POST of a present pair (duplicate error) or DELETE of an absent one (missing error); otherwise returns the data unchanged |
| `Membership.ValidateFavorite` | backend/foodgram/api/serializers.py:177-194 | "already favorited" exactly on POST of a present pair, "not favorited" exactly on DELETE of an absent one, success otherwise with the data unchanged |
| `Membership.ValidateShoppingCart` | backend/foodgram/api/serializers.py:283-300 | the same two errors for the shopping list, each exactly in its own case |
| `Membership.ValidateFollow` | backend/foodgram/api/serializers.py:231-253 | "already subscribed" exactly on POST of a present pair; "self-subscription" exactly on POST of an absent pair to oneself; "no such subscription" exactly on DELETE of an absent pair |
| `Membership.Remove` | backend/foodgram/api/serializers.py:186-193 | the delete that a DELETE validation guards keeps every row except the pair |
| `Membership.RemoveUnique` | backend/foodgram/api/serializers.py:186-193 | in a table without repeats, deleting a present pair removes exactly one row and keeps the table without repeats |
| `Membership.GuardedTransition` | backend/foodgram/api/serializers.py:177-194 | after a passed validation the guarded insert or delete keeps the table without repeats and changes its size by exactly one |
| `Membership.SecondRequestRejected` | backend/foodgram/api/serializers.py:178-193 | repeating a successful POST fails with the duplicate error, repeating a successful DELETE with the missing error |
| `Membership.SelfFollowRejected` | backend/foodgram/api/serializers.py:239-244 | a POST to follow oneself fails whatever the table holds, with the self-subscription error when nobody follows themselves |
| `Membership.FollowTransition` | backend/foodgram/api/serializers.py:231-253 | a passed follow validation keeps the follow table without repeats and without self-subscriptions; the pair is present after POST and absent after DELETE |
| `ReadViews.IsSubscribed` | backend/foodgram/api/serializers.py:36-39 | false for an anonymous requester; for a logged-in one, true exactly when some follow row goes from the requester to the author |
| `ReadViews.FollowIsSubscribed` | backend/foodgram/api/serializers.py:265-267 | the same flag as `IsSubscribed` gives for that user when logged in |
| `ReadViews.IsMarked` | backend/foodgram/api/serializers.py:118-124 | true exactly when some favorite (or shopping-list) row pairs the user with the recipe |
| `ReadViews.SubscribedFlagsAgree` | backend/foodgram/api/serializers.py:36-39 | `is_subscribed` is true exactly for a logged-in requester with a follow row to the author, never for an anonymous one, and agrees with the subscription view's flag (lines 265-267) |
| `ReadViews.SubscribedFlagFollowsTransition` | backend/foodgram/api/serializers.py:36-39 | after a validated subscribe the flag is true, after a validated unsubscribe false, and every other requester's flag is unchanged |
| `ReadViews.MarkFlagFollowsTransition` | backend/foodgram/api/serializers.py:118-124 | `is_favorited` / `is_in_shopping_cart` become true after a validated POST and false after a validated DELETE, other pairs unchanged |
| `ReadViews.AuthoredBy` | backend/foodgram/api/serializers.py:259 | the author's recipes: every one is the author's and from the table, and every recipe of the author's is listed; their order is fixed by the two lemmas below |
| `ReadViews.AuthoredByAppend` | backend/foodgram/api/serializers.py:259 | listing a table made of two parts lists the first part's recipes and then the second's, so the listing keeps table order |
| `ReadViews.AuthoredBySingle` | backend/foodgram/api/serializers.py:259 | a one-row table lists its row exactly when the author wrote it |
| `ReadViews.GetRecipes` | backend/foodgram/api/serializers.py:255-263 | a prefix of the author's recipes: all of them without a limit, `min(limit, count)` of them with one; a negative limit is refused |
| `ReadViews.RecipesCount` | backend/foodgram/api/serializers.py:269-270 | the count is at most the table size, and zero exactly when the author has no recipe in the table |
| `ReadViews.CountIgnoresLimit` | backend/foodgram/api/serializers.py:269-270 | `recipes_count` is at least the number listed, equal to it without a limit or with a limit at least the count, and every listed recipe is the author's |
| `DataUri.IndexFrom` | backend/foodgram/api/serializers.py:67 | the first occurrence of the separator at or after a position, or none at all |
| `DataUri.Split` | backend/foodgram/api/serializers.py:67-68 | Python's `str.split(sep)`: at least one part, joining the parts with `sep` gives the string back, and no part contains `sep` |
| `DataUri.SplitFromJoin` | backend/foodgram/api/serializers.py:67 | joining the parts of `split` with the separator gives the string back |
| `DataUri.SplitFromPartsFree` | backend/foodgram/api/serializers.py:67 | no part of `split` contains the separator |
| `DataUri.SplitAroundOne` | backend/foodgram/api/serializers.py:67-68 | two pieces around one separator, whose first character occurs nowhere else, split into exactly those two pieces |
| `DataUri.LastPartAfterSeparator` | backend/foodgram/api/serializers.py:68 | the last part of a split is the suffix that starts where the split started or right after an occurrence of the separator |
| `DataUri.Extension` | backend/foodgram/api/serializers.py:68 | `split('/')[-1]` is the whole text after the last `/` of the header, or the whole header when it has no `/` |
| `DataUri.ToInternalValue` | backend/foodgram/api/serializers.py:64-72 | non-strings and strings without the `data:image` prefix pass through unchanged; a `data:image` string fails exactly when its split on `;base64,` does not have two parts, reporting how many it has; otherwise the result is the second part named `temp.` + the extension of the first part, the string being header + `;base64,` + payload with neither containing the marker |
| `DataUri.DataUriRoundTrip` | backend/foodgram/api/serializers.py:64-70 | `data:image/<ext>;base64,<payload>` comes back as the payload named `temp.<ext>` |
| `DataUri.MissingMarkerRejected` | backend/foodgram/api/serializers.py:66-67 | a `data:image` string without `;base64,` fails the unpacking with one part |

## Left out

- Persistence: `Recipe.objects.create`, `bulk_create`, `save`, `.clear()` and querysets are operations on the in-memory `Store` and on sequences; database uniqueness constraints, foreign keys to unknown ingredient ids and the check-then-insert race between concurrent requests are not modelled.
- The inserts and deletes that follow a passed membership validation are performed by the views, which are not part of this model; `Membership.Apply` stands for them.
- Base64 decoding of the payload, `ContentFile`, and the image validation done by the parent `ImageField` (`super().to_internal_value`) are library calls; the payload is an opaque string and a malformed payload's decoding error is not modelled.
- Declarative field machinery: `Meta` field lists, `ReadOnlyField` projections, `IngredientSerializer`, `RecipeShortSerializer`, `RecipeSerializer`, `to_representation`.
- Request context: authentication, `query_params` parsing and the `int()` conversion of `recipes_limit`; a limit that is absent or an empty string is `None`, any other value is its integer (so `"0"` lists no recipes); a non-numeric limit's `ValueError` is not modelled.
- `ReadViews.MarkFlagFollowsTransition`: the `is_favorited` / `is_in_shopping_cart` flags are modelled for a logged-in requester only; what the filter does with an anonymous user is not modelled.
- `ReadViews.AuthoredBy`: the recipes are listed in table order; the model's default ordering lives in the models file, which is not part of this model.
- Field constraints declared on the models (for example on cooking time) and the creation timestamp: the models file is not part of this model.
- `Ingredients.Validate`: the ids are those of the submitted items; the raw request data is read before type conversion in the source, so a string id and an equal integer id would count as different there, which the model does not capture.
- `Ingredients.Validate`: an absent `ingredients` key (a required-field error, or a `TypeError` when the loop iterates `None` on a partial update) is the single error `IngredientsMissing`.
- Error messages are distinct error constructors rather than the Russian texts.
