/**
 * The values computed per request when a user, a recipe or a subscription is
 * shown: the `is_subscribed`, `is_favorited` and `is_in_shopping_cart` flags,
 * and the followed author's recipes (`recipes`, cut to `recipes_limit`) with
 * their total (`recipes_count`). Nothing here is stored; each value is
 * recomputed from the tables and the requester.
 */
module ReadViews {
  import opened Wrappers
  import opened Membership
  import opened RecipeStore

  /** The requesting identity: an anonymous visitor or a logged-in user. */
  datatype Requester = Anonymous | Authenticated(id: int)

  datatype ViewError = NegativeLimit   // a negative slice bound, which querysets refuse

  /** `CustomUserSerializer.get_is_subscribed`: does the requester follow `author`? */
  function IsSubscribed(follows: seq<Pair>, requester: Requester, author: int): (b: bool)
    ensures requester.Anonymous? ==> !b
    ensures requester.Authenticated? ==>
              (b <==> exists k :: 0 <= k < |follows| && follows[k].user == requester.id && follows[k].target == author)
  {
    requester.Authenticated? && Pair(requester.id, author) in follows
  }

  /** `FollowSerializer.get_is_subscribed`, evaluated for a logged-in `user`. */
  function FollowIsSubscribed(follows: seq<Pair>, user: int, following: int): (b: bool)
    ensures b == IsSubscribed(follows, Authenticated(user), following)
  {
    Pair(user, following) in follows
  }

  /** `get_is_favorited` / `get_is_in_shopping_cart`: is the (user, recipe) row present? */
  function IsMarked(rows: seq<Pair>, user: int, recipe: int): (b: bool)
    ensures b <==> exists k :: 0 <= k < |rows| && rows[k].user == user && rows[k].target == recipe
  {
    Pair(user, recipe) in rows
  }

  /**
   * The two `is_subscribed` computations agree for a logged-in requester;
   * an anonymous requester is subscribed to nobody.
   */
  lemma SubscribedFlagsAgree(follows: seq<Pair>, user: int, author: int)
    ensures IsSubscribed(follows, Authenticated(user), author) == FollowIsSubscribed(follows, user, author)
    ensures !IsSubscribed(follows, Anonymous, author)
    ensures IsSubscribed(follows, Authenticated(user), author) <==>
              exists k :: 0 <= k < |follows| && follows[k].user == user && follows[k].target == author
  {
  }

  /**
   * After a validated subscribe (POST) the requester sees `is_subscribed`
   * true, after a validated unsubscribe (DELETE) false; the flag for every
   * other (requester, author) pair is as before.
   */
  lemma SubscribedFlagFollowsTransition<D>(data: D, follows: seq<Pair>, user: int, author: int, verb: HttpMethod)
    requires verb == Post || verb == Delete
    requires ValidateFollow(data, follows, user, author, verb).Success?
    ensures IsSubscribed(Apply(follows, Pair(user, author), verb), Authenticated(user), author) == (verb == Post)
    ensures forall other: Requester, a: int :: (other, a) != (Authenticated(user), author) ==>
              IsSubscribed(Apply(follows, Pair(user, author), verb), other, a) == IsSubscribed(follows, other, a)
  {
  }

  /**
   * The same for favorites and the shopping list: after a validated POST the
   * flag is true for that requester and recipe, after a validated DELETE false.
   */
  lemma MarkFlagFollowsTransition<D>(data: D, rows: seq<Pair>, user: int, recipe: int, verb: HttpMethod,
                                     duplicate: MembershipError, missing: MembershipError)
    requires verb == Post || verb == Delete
    requires ValidateMark(data, rows, Pair(user, recipe), verb, duplicate, missing).Success?
    ensures IsMarked(Apply(rows, Pair(user, recipe), verb), user, recipe) == (verb == Post)
    ensures forall u, r :: (u, r) != (user, recipe) ==>
              IsMarked(Apply(rows, Pair(user, recipe), verb), u, r) == IsMarked(rows, u, r)
  {
  }

  /** `following.recipes.all()`: the rows of the recipe table written by `author`, in table order. */
  function AuthoredBy(table: seq<Recipe>, author: int): (rs: seq<Recipe>)
    ensures |rs| <= |table|
    ensures forall k :: 0 <= k < |rs| ==> rs[k].author == author && rs[k] in table
    ensures forall x :: x in table && x.author == author ==> x in rs
  {
    if table == [] then []
    else
      var last := table[|table| - 1];
      AuthoredBy(table[..|table| - 1], author) + (if last.author == author then [last] else [])
  }

  /** Listing a table made of two parts lists the first part's recipes, then the second's. */
  lemma {:induction false} AuthoredByAppend(a: seq<Recipe>, b: seq<Recipe>, author: int)
    ensures AuthoredBy(a + b, author) == AuthoredBy(a, author) + AuthoredBy(b, author)
  {
    if b == [] {
      assert a + b == a;
    } else {
      var b', last := b[..|b| - 1], b[|b| - 1];
      assert (a + b)[..|a + b| - 1] == a + b';
      AuthoredByAppend(a, b', author);
    }
  }

  /** A one-row table lists that row exactly when the author wrote it. */
  lemma AuthoredBySingle(x: Recipe, author: int)
    ensures AuthoredBy([x], author) == if x.author == author then [x] else []
  {
    assert [x][..0] == [];
  }

  function Min(a: int, b: int): int {
    if a <= b then a else b
  }

  /**
   * `get_recipes`: the author's recipes, cut to the first `limit` when a
   * limit was given. A limit of 0 gives no recipes; a negative one is refused.
   */
  function GetRecipes(table: seq<Recipe>, author: int, limit: Option<int>): (r: Result<seq<Recipe>, ViewError>)
    ensures r.Failure? <==> limit.Some? && limit.value < 0
    ensures r.Success? ==> r.value <= AuthoredBy(table, author)
    ensures r.Success? && limit.None? ==> r.value == AuthoredBy(table, author)
    ensures r.Success? && limit.Some? ==> |r.value| == Min(limit.value, |AuthoredBy(table, author)|)
  {
    var all := AuthoredBy(table, author);
    match limit
    case None => Success(all)
    case Some(n) => if n < 0 then Failure(NegativeLimit) else Success(all[..Min(n, |all|)])
  }

  /** `get_recipes_count`: how many recipes the author has, whatever the limit. */
  function RecipesCount(table: seq<Recipe>, author: int): (n: nat)
    ensures n <= |table|
    ensures n == 0 <==> forall x :: x in table ==> x.author != author
  {
    var rs := AuthoredBy(table, author);
    assert rs != [] ==> rs[0] in table && rs[0].author == author;
    |rs|
  }

  /**
   * `recipes_count` never falls below the length of `recipes`, equals it when
   * no limit (or a limit at least the count) is given, and every listed
   * recipe is one of the author's.
   */
  lemma CountIgnoresLimit(table: seq<Recipe>, author: int, limit: Option<int>)
    requires GetRecipes(table, author, limit).Success?
    ensures |GetRecipes(table, author, limit).value| <= RecipesCount(table, author)
    ensures (limit.None? || limit.value >= RecipesCount(table, author)) ==>
              |GetRecipes(table, author, limit).value| == RecipesCount(table, author)
    ensures forall x :: x in GetRecipes(table, author, limit).value ==> x in table && x.author == author
  {
  }
}
