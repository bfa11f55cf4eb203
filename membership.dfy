/**
 * The membership validators of `FavoriteSerializer`, `ShoppingCardSerializer`
 * and `FollowSerializer`. Each table holds (user, target) rows: a recipe for
 * favorites and the shopping list, a followed user for subscriptions. A
 * validator looks at the table, the HTTP verb and the pair and either passes
 * the request data through or raises; the table change that follows a
 * successful validation (insert on POST, delete on DELETE) is the transition
 * the validator guards.
 */
module Membership {
  import opened Wrappers
  import opened Ingredients

  datatype HttpMethod = Get | Post | Put | Patch | Delete

  /** A row of a membership table. */
  datatype Pair = Pair(user: int, target: int)

  datatype MembershipError =
    | AlreadyFavorited    // "you have already added this to favorites"
    | NotFavorited        // "this recipe is not in favorites"
    | AlreadyInCart       // "already in the shopping list"
    | NotInCart           // "this recipe is not in the shopping list"
    | AlreadySubscribed   // "this subscription already exists"
    | SelfSubscription    // "you cannot subscribe to yourself"
    | NotSubscribed       // "there is no such subscription"

  /** Nobody follows themselves. */
  predicate NoSelfFollow(rows: seq<Pair>) {
    forall k :: 0 <= k < |rows| ==> rows[k].user != rows[k].target
  }

  /**
   * The check shared by the favorite and shopping-list validators: a POST of
   * a pair already present raises `duplicate`, a DELETE of an absent pair
   * raises `missing`, everything else passes the data through.
   */
  function ValidateMark<D>(data: D, rows: seq<Pair>, pair: Pair, verb: HttpMethod,
                           duplicate: MembershipError, missing: MembershipError)
    : (r: Result<D, MembershipError>)
    ensures r.Failure? <==> (verb == Post && pair in rows) || (verb == Delete && pair !in rows)
    ensures r.Failure? && verb == Post ==> r.error == duplicate
    ensures r.Failure? && verb == Delete ==> r.error == missing
    ensures r.Success? ==> r.value == data
  {
    if verb == Post && pair in rows then Failure(duplicate)
    else if verb == Delete && pair !in rows then Failure(missing)
    else Success(data)
  }

  /** `FavoriteSerializer.validate` for `user` and the recipe in the URL. */
  function ValidateFavorite<D>(data: D, favorites: seq<Pair>, user: int, recipe: int, verb: HttpMethod)
    : (r: Result<D, MembershipError>)
    ensures r == Failure(AlreadyFavorited) <==> verb == Post && Pair(user, recipe) in favorites
    ensures r == Failure(NotFavorited) <==> verb == Delete && Pair(user, recipe) !in favorites
    ensures r.Success? <==> r != Failure(AlreadyFavorited) && r != Failure(NotFavorited)
    ensures r.Success? ==> r.value == data
  {
    ValidateMark(data, favorites, Pair(user, recipe), verb, AlreadyFavorited, NotFavorited)
  }

  /** `ShoppingCardSerializer.validate` for `user` and the recipe in the URL. */
  function ValidateShoppingCart<D>(data: D, cart: seq<Pair>, user: int, recipe: int, verb: HttpMethod)
    : (r: Result<D, MembershipError>)
    ensures r == Failure(AlreadyInCart) <==> verb == Post && Pair(user, recipe) in cart
    ensures r == Failure(NotInCart) <==> verb == Delete && Pair(user, recipe) !in cart
    ensures r.Success? <==> r != Failure(AlreadyInCart) && r != Failure(NotInCart)
    ensures r.Success? ==> r.value == data
  {
    ValidateMark(data, cart, Pair(user, recipe), verb, AlreadyInCart, NotInCart)
  }

  /**
   * `FollowSerializer.validate`: on POST the existing-subscription check runs
   * before the self-subscription check; on DELETE the subscription must exist.
   */
  function ValidateFollow<D>(data: D, follows: seq<Pair>, user: int, target: int, verb: HttpMethod)
    : (r: Result<D, MembershipError>)
    ensures r == Failure(AlreadySubscribed) <==> verb == Post && Pair(user, target) in follows
    ensures r == Failure(SelfSubscription) <==>
              verb == Post && Pair(user, target) !in follows && user == target
    ensures r == Failure(NotSubscribed) <==> verb == Delete && Pair(user, target) !in follows
    ensures r.Success? <==>
              r != Failure(AlreadySubscribed) && r != Failure(SelfSubscription) && r != Failure(NotSubscribed)
    ensures r.Success? ==> r.value == data
  {
    if verb == Post && Pair(user, target) in follows then Failure(AlreadySubscribed)
    else if verb == Post && user == target then Failure(SelfSubscription)
    else if verb == Delete && Pair(user, target) !in follows then Failure(NotSubscribed)
    else Success(data)
  }

  /** The table without any row equal to `pair`. */
  function Remove(rows: seq<Pair>, pair: Pair): (rest: seq<Pair>)
    ensures |rest| <= |rows|
    ensures forall p :: p in rest <==> p in rows && p != pair
  {
    if rows == [] then []
    else
      var last := rows[|rows| - 1];
      Remove(rows[..|rows| - 1], pair) + (if last == pair then [] else [last])
  }

  /** The change the view makes once validation has passed. */
  function Apply(rows: seq<Pair>, pair: Pair, verb: HttpMethod): seq<Pair> {
    match verb
    case Post => rows + [pair]
    case Delete => Remove(rows, pair)
    case _ => rows
  }

  /** Removing a pair that occurs once from a table without repeats removes exactly one row. */
  lemma {:induction false} RemoveUnique(rows: seq<Pair>, pair: Pair)
    requires Distinct(rows)
    ensures Distinct(Remove(rows, pair))
    ensures |Remove(rows, pair)| == if pair in rows then |rows| - 1 else |rows|
  {
    if rows != [] {
      var init, last := rows[..|rows| - 1], rows[|rows| - 1];
      assert rows == init + [last];
      RemoveUnique(init, pair);
      if last == pair {
        forall i | 0 <= i < |init| ensures init[i] != pair {
          assert init[i] == rows[i];
        }
      } else {
        var rest := Remove(init, pair) + [last];
        forall i | 0 <= i < |init| ensures init[i] != last {
          assert init[i] == rows[i];
        }
        forall i, j | 0 <= i < j < |rest| ensures rest[i] != rest[j] {
          if j == |rest| - 1 {
            assert rest[i] in Remove(init, pair);
          }
        }
      }
    }
  }

  /**
   * A successful membership validation keeps the table free of repeats, and
   * the transition it guards adds or removes exactly one row.
   */
  lemma GuardedTransition<D>(data: D, rows: seq<Pair>, pair: Pair, verb: HttpMethod,
                             duplicate: MembershipError, missing: MembershipError)
    requires Distinct(rows)
    requires ValidateMark(data, rows, pair, verb, duplicate, missing).Success?
    ensures Distinct(Apply(rows, pair, verb))
    ensures verb == Post ==> pair in Apply(rows, pair, verb) && |Apply(rows, pair, verb)| == |rows| + 1
    ensures verb == Delete ==> pair !in Apply(rows, pair, verb) && |Apply(rows, pair, verb)| == |rows| - 1
    ensures verb != Post && verb != Delete ==> Apply(rows, pair, verb) == rows
  {
    if verb == Delete {
      RemoveUnique(rows, pair);
    } else if verb == Post {
      var next := rows + [pair];
      forall i, j | 0 <= i < j < |next| ensures next[i] != next[j] {
        if j == |rows| {
          assert next[i] == rows[i];
        }
      }
    }
  }

  /**
   * Repeating a successful POST or DELETE is rejected: adding the same
   * favorite twice fails the second time with the "already" error, removing
   * it twice fails with the "missing" error.
   */
  lemma SecondRequestRejected<D>(data: D, rows: seq<Pair>, pair: Pair, verb: HttpMethod,
                                 duplicate: MembershipError, missing: MembershipError)
    requires verb == Post || verb == Delete
    requires ValidateMark(data, rows, pair, verb, duplicate, missing).Success?
    ensures ValidateMark(data, Apply(rows, pair, verb), pair, verb, duplicate, missing) ==
            Failure(if verb == Post then duplicate else missing)
  {
  }

  /**
   * Following yourself always fails on POST, whatever the table holds; when
   * the table already keeps `NoSelfFollow`, it fails with the self-subscription error.
   */
  lemma SelfFollowRejected<D>(data: D, follows: seq<Pair>, user: int)
    ensures ValidateFollow(data, follows, user, user, Post).Failure?
    ensures NoSelfFollow(follows) ==> ValidateFollow(data, follows, user, user, Post) == Failure(SelfSubscription)
  {
  }

  /**
   * A follow transition that passed validation keeps the follow table
   * without repeats and without self-subscriptions.
   */
  lemma FollowTransition<D>(data: D, follows: seq<Pair>, user: int, target: int, verb: HttpMethod)
    requires Distinct(follows) && NoSelfFollow(follows)
    requires ValidateFollow(data, follows, user, target, verb).Success?
    ensures Distinct(Apply(follows, Pair(user, target), verb))
    ensures NoSelfFollow(Apply(follows, Pair(user, target), verb))
    ensures verb == Post ==> Pair(user, target) in Apply(follows, Pair(user, target), verb)
    ensures verb == Delete ==> Pair(user, target) !in Apply(follows, Pair(user, target), verb)
  {
    var pair := Pair(user, target);
    GuardedTransition(data, follows, pair, verb, AlreadySubscribed, NotSubscribed);
    var next := Apply(follows, pair, verb);
    forall k | 0 <= k < |next| ensures next[k].user != next[k].target {
      if verb == Post && k == |follows| {
        assert next[k] == pair;
      } else {
        assert next[k] in follows;
        var i :| 0 <= i < |follows| && follows[i] == next[k];
      }
    }
  }
}
