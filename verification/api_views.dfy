/** The state-changing actions of backend/api/views.py: `subscribe` on users,
    `favorite` and `shopping_cart` on recipes (each a hand-written copy of the
    toggle in `Relation`), and the avatar action. The requester is a signed-in
    user, as the permission classes demand; each action maps the database and the
    request to the new database and the response. */
module ApiViews {

  import opened Common
  import Relation
  import Schema
  import DataUri
  import Serializers

  function SelfSubscription(): string { "Cannot subscribe to yourself." }
  function AlreadySubscribed(): string { "You are already subscribed to that user." }
  function NotSubscribed(): string { "Not subscribed to that user." }
  function AlreadyFavorite(): string { "This recipe is already in your favorites." }
  function NotFavorite(): string { "This recipe is not in your favorites." }
  function AlreadyInCart(): string { "This recipe is already in your shopping cart." }
  function NotInCart(): string { "This recipe is not in your shopping cart." }

  // ---------------------------------------------------------------------------
  // subscribe

  /** `UserViewSet.subscribe`: the requester's own id is refused before anything
      is looked up; then the toggle on the subscription table, with users as
      targets. */
  function Subscribe(db: Schema.Db, actor: nat, id: nat, m: Method): (res: (Schema.Db, Response))
    requires Schema.Consistent(db)
    ensures id == actor ==> res == (db, BadRequest400(SelfSubscription()))
    ensures id != actor && id !in db.users ==> res == (db, NotFound404)
    ensures id != actor && id in db.users ==>
              Relation.Toggled(db.subscriptions, res.0.subscriptions, res.1, actor, id, m,
                               AlreadySubscribed(), NotSubscribed())
    ensures res.0 == db.(subscriptions := res.0.subscriptions)
    ensures Relation.Valid(res.0.subscriptions)
    ensures actor in db.users ==> Schema.Consistent(res.0)
  {
    if id == actor then (db, BadRequest400(SelfSubscription()))
    else if id !in db.users then (db, NotFound404)
    else
      var (t, r) := Relation.Toggle(db.subscriptions, db.users, actor, Some(id), m, AlreadySubscribed(), NotSubscribed());
      Relation.ToggleToggled(db.subscriptions, db.users, actor, id, m, AlreadySubscribed(), NotSubscribed());
      Schema.SubscriptionsWithin(db, t, actor, id);
      (db.(subscriptions := t), r)
  }

  /** After a POST the requester is subscribed, whether the row is new or was
      there; after a DELETE they are not. `is_subscribed` reports it. */
  lemma SubscribeSetsIsSubscribed(db: Schema.Db, actor: nat, id: nat, m: Method)
    requires Schema.Consistent(db) && id != actor && id in db.users
    ensures var subs := Subscribe(db, actor, id, m).0.subscriptions;
            Serializers.IsSubscribed(Some(User(actor)), id, subs) <==> m == Post
  {
  }

  // ---------------------------------------------------------------------------
  // favorite and shopping_cart

  /** `RecipeViewSet.favorite`: 404 for an unknown recipe, then the toggle on the
      favorites table. */
  function Favorite(db: Schema.Db, actor: nat, pk: nat, m: Method): (res: (Schema.Db, Response))
    requires Schema.Consistent(db)
    ensures pk !in db.recipes ==> res == (db, NotFound404)
    ensures pk in db.recipes ==>
              Relation.Toggled(db.favorites, res.0.favorites, res.1, actor, pk, m, AlreadyFavorite(), NotFavorite())
    ensures res.0 == db.(favorites := res.0.favorites)
    ensures actor in db.users ==> Schema.Consistent(res.0)
  {
    if pk !in db.recipes then (db, NotFound404)
    else
      var (t, r) := Relation.Toggle(db.favorites, db.recipes.Keys, actor, Some(pk), m, AlreadyFavorite(), NotFavorite());
      Relation.ToggleToggled(db.favorites, db.recipes.Keys, actor, pk, m, AlreadyFavorite(), NotFavorite());
      Schema.FavoritesWithin(db, t, actor, pk);
      (db.(favorites := t), r)
  }

  /** `RecipeViewSet.shopping_cart`: the same toggle on the cart table. */
  function ShoppingCart(db: Schema.Db, actor: nat, pk: nat, m: Method): (res: (Schema.Db, Response))
    requires Schema.Consistent(db)
    ensures pk !in db.recipes ==> res == (db, NotFound404)
    ensures pk in db.recipes ==>
              Relation.Toggled(db.carts, res.0.carts, res.1, actor, pk, m, AlreadyInCart(), NotInCart())
    ensures res.0 == db.(carts := res.0.carts)
    ensures actor in db.users ==> Schema.Consistent(res.0)
  {
    if pk !in db.recipes then (db, NotFound404)
    else
      var (t, r) := Relation.Toggle(db.carts, db.recipes.Keys, actor, Some(pk), m, AlreadyInCart(), NotInCart());
      Relation.ToggleToggled(db.carts, db.recipes.Keys, actor, pk, m, AlreadyInCart(), NotInCart());
      Schema.CartsWithin(db, t, actor, pk);
      (db.(carts := t), r)
  }

  /** The hand-written favorite action is the decorated toggle with the same
      messages, routed by `pk`. */
  lemma FavoriteIsRelationAction(db: Schema.Db, actor: nat, pk: nat, m: Method)
    requires Schema.Consistent(db)
    ensures var (t, r) := Relation.RelationAction(db.favorites, db.recipes.Keys, actor, map["pk" := pk], m,
                                                  None, AlreadyFavorite(), NotFavorite());
            Favorite(db, actor, pk, m) == (db.(favorites := t), r)
  {
  }

  /** POST then DELETE of a favorite leaves the favorites as they were. */
  lemma FavoriteRoundTrip(db: Schema.Db, actor: nat, pk: nat)
    requires Schema.Consistent(db) && actor in db.users && pk in db.recipes
    requires !Relation.Related(db.favorites, actor, pk)
    ensures var (db1, r1) := Favorite(db, actor, pk, Post);
            var (db2, r2) := Favorite(db1, actor, pk, Delete);
            r1 == Created201(pk) && r2 == NoContent204
            && Relation.Pairs(db2.favorites) == Relation.Pairs(db.favorites)
  {
    var (db1, r1) := Favorite(db, actor, pk, Post);
    assert Relation.Related(db1.favorites, actor, pk);
  }

  /** A second identical cart request is refused and changes nothing more. */
  lemma CartRepeatRefused(db: Schema.Db, actor: nat, pk: nat, m: Method)
    requires Schema.Consistent(db) && actor in db.users && pk in db.recipes
    ensures var (db1, r1) := ShoppingCart(db, actor, pk, m);
            var (db2, r2) := ShoppingCart(db1, actor, pk, m);
            StatusCode(r2) == 400 && Relation.Pairs(db2.carts) == Relation.Pairs(db1.carts)
  {
    Relation.RepeatedToggleRejected(db.carts, db.recipes.Keys, actor, pk, m, AlreadyInCart(), NotInCart());
    var (db1, r1) := ShoppingCart(db, actor, pk, m);
    assert db1.recipes == db.recipes;
  }

  // ---------------------------------------------------------------------------
  // avatar

  datatype AvatarRequest = PutAvatar(data: Option<DataUri.ImageData>) | DeleteAvatar

  /** `UserViewSet.avatar`. DELETE removes the user's avatar row, or answers 404
      when there is none. PUT first makes sure the row exists (`get_or_create`),
      then validates the `avatar` field: missing is 400, a malformed data URL
      raises (500), and what the image field refuses is 400 with its message;
      an accepted image is stored and answered with 200. `imageField` stands for
      the image validation and storage, which give the stored name or an error
      message. */
  function Avatar(db: Schema.Db, user: nat, req: AvatarRequest,
                  imageField: DataUri.Internal -> Result<string, string>): (res: (Schema.Db, Response))
    ensures res.0 == db.(avatars := res.0.avatars)
    ensures forall u :: u != user ==> (u in res.0.avatars <==> u in db.avatars)
    ensures forall u :: u != user && u in db.avatars ==> res.0.avatars[u] == db.avatars[u]
    ensures req.DeleteAvatar? ==> user !in res.0.avatars
    ensures req.DeleteAvatar? ==> (res.1 == NotFound404 <==> user !in db.avatars)
    ensures req.DeleteAvatar? && user in db.avatars ==> res.1 == NoContent204
    ensures req.PutAvatar? ==> user in res.0.avatars
    ensures req.PutAvatar? && res.1 != Ok200 && user in db.avatars ==> res.0 == db
    ensures req.PutAvatar? && res.1 != Ok200 && user !in db.avatars ==> res.0.avatars[user] == None
    ensures req.PutAvatar? && req.data.None? ==> res.1 == BadRequest400(FieldRequired)
    ensures res.1 == Ok200 <==>
              req.PutAvatar? && req.data.Some? && DataUri.ToInternalValue(req.data.value).Ok?
              && imageField(DataUri.ToInternalValue(req.data.value).value).Ok?
    ensures res.1 == Ok200 ==>
              res.0.avatars[user] == Some(imageField(DataUri.ToInternalValue(req.data.value).value).value)
    ensures Schema.Consistent(db) && user in db.users ==> Schema.Consistent(res.0)
  {
    match req
    case DeleteAvatar => AvatarDelete(db, user)
    case PutAvatar(data) => AvatarPut(db, user, data, imageField)
  }

  /** DELETE on the avatar: the row goes, or 404 when there is none. */
  function AvatarDelete(db: Schema.Db, user: nat): (res: (Schema.Db, Response))
    ensures res.0 == db.(avatars := db.avatars - {user})
    ensures res.1 == NotFound404 <==> user !in db.avatars
    ensures user in db.avatars ==> res.1 == NoContent204
    ensures Schema.Consistent(db) ==> Schema.Consistent(res.0)
  {
    if user !in db.avatars then (db, NotFound404)
    else (db.(avatars := db.avatars - {user}), NoContent204)
  }

  /** PUT on the avatar: `get_or_create` makes the row exist, then the field is
      validated and, when accepted, stored. */
  function AvatarPut(db: Schema.Db, user: nat, data: Option<DataUri.ImageData>,
                    imageField: DataUri.Internal -> Result<string, string>): (res: (Schema.Db, Response))
    ensures res.0 == db.(avatars := res.0.avatars)
    ensures forall u :: u != user ==> (u in res.0.avatars <==> u in db.avatars)
    ensures user in res.0.avatars
    ensures forall u :: u != user && u in db.avatars ==> res.0.avatars[u] == db.avatars[u]
    ensures res.1 != Ok200 && user in db.avatars ==> res.0 == db
    ensures res.1 != Ok200 && user !in db.avatars ==> res.0.avatars[user] == None
    ensures data.None? ==> res.1 == BadRequest400(FieldRequired)
    ensures res.1 == Ok200 <==>
              data.Some? && DataUri.ToInternalValue(data.value).Ok?
              && imageField(DataUri.ToInternalValue(data.value).value).Ok?
    ensures res.1 == Ok200 ==>
              res.0.avatars[user] == Some(imageField(DataUri.ToInternalValue(data.value).value).value)
    ensures Schema.Consistent(db) && user in db.users ==> Schema.Consistent(res.0)
  {
    var db1 := if user in db.avatars then db else SetAvatar(db, user, None);
    match data
    case None => (db1, BadRequest400(FieldRequired))
    case Some(d) =>
      match DataUri.ToInternalValue(d)
      case Err(_) => (db1, ServerError500)
      case Ok(v) =>
        match imageField(v)
        case Err(message) => (db1, BadRequest400(message))
        case Ok(name) => (SetAvatar(db1, user, Some(name)), Ok200)
  }

  /** Writes the user's avatar row; only that row changes. */
  function SetAvatar(db: Schema.Db, user: nat, image: Option<string>): (db': Schema.Db)
    ensures db' == db.(avatars := db'.avatars)
    ensures db'.avatars.Keys == db.avatars.Keys + {user} && db'.avatars[user] == image
    ensures forall u :: u != user && u in db.avatars ==> db'.avatars[u] == db.avatars[u]
    ensures Schema.Consistent(db) && user in db.users ==> Schema.Consistent(db')
  {
    db.(avatars := db.avatars[user := image])
  }

  /** A PUT whose image is refused still leaves the user with an avatar row. */
  lemma RefusedAvatarKeepsRow(db: Schema.Db, user: nat, imageField: DataUri.Internal -> Result<string, string>)
    requires user !in db.avatars
    ensures var (db1, r) := Avatar(db, user, PutAvatar(None), imageField);
            StatusCode(r) == 400 && db1.avatars == db.avatars[user := None]
  {
  }
}
