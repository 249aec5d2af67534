/** The relational schema of backend/recipes/models.py, backend/shortlinks/models.py
    and backend/users/models.py as one immutable database value, with the
    constraints the schema declares and the cascades its foreign keys cause. */
module Schema {

  import opened Common
  import Relation

  /** `max_length` of the character fields. */
  const RecipeNameMaxLength: nat := 256
  const IngredientNameMaxLength: nat := 128
  const MeasurementUnitMaxLength: nat := 64
  const SlugMaxLength: nat := 8

  /** The largest value of a PositiveIntegerField on PostgreSQL, which DRF
      takes as the serializer field's `max_value`. */
  const PositiveIntegerMax: nat := 2147483647

  /** A catalogue entry; the catalogue is global and owned by no user. */
  datatype Ingredient = Ingredient(name: string, measurementUnit: string)

  /** `cooking_time` is a PositiveIntegerField, which admits 0; the lower bound 1
      belongs to the serializer. */
  datatype Recipe = Recipe(author: nat, name: string, image: Option<string>, text: string,
                           cookingTime: nat)

  /** A quantity of a catalogue ingredient in a recipe. */
  datatype RecipeIngredient = RecipeIngredient(recipe: nat, ingredient: nat, amount: nat)

  datatype ShortLink = ShortLink(recipe: nat, slug: string)

  /** The whole database. The join tables Favorite, ShoppingCart and Subscription
      are `Relation.Table`s: favorites and carts link a user to a recipe,
      subscriptions link a subscriber to the user they follow. `avatars` maps a
      user to the image of their single Avatar row. */
  datatype Db = Db(
    users: set<nat>,
    ingredients: map<nat, Ingredient>,
    recipes: map<nat, Recipe>,
    nextRecipeId: nat,
    recipeIngredients: seq<RecipeIngredient>,
    favorites: Relation.Table,
    carts: Relation.Table,
    subscriptions: Relation.Table,
    links: seq<ShortLink>,
    avatars: map<nat, Option<string>>)

  predicate FieldsFit(db: Db)
  {
    && (forall k :: k in db.recipes ==> |db.recipes[k].name| <= RecipeNameMaxLength)
    && (forall k :: k in db.ingredients ==>
          |db.ingredients[k].name| <= IngredientNameMaxLength
          && |db.ingredients[k].measurementUnit| <= MeasurementUnitMaxLength)
    && (forall l :: l in db.links ==> |l.slug| <= SlugMaxLength)
  }

  /** No slug appears twice in `links` (`unique=True`). */
  predicate UniqueSlugs(links: seq<ShortLink>)
  {
    |links| == 0 || ((forall l :: l in links[1..] ==> l.slug != links[0].slug) && UniqueSlugs(links[1..]))
  }

  /** Every foreign key points at an existing row. */
  predicate References(db: Db)
  {
    && (forall k :: k in db.recipes ==> db.recipes[k].author in db.users)
    && (forall ri :: ri in db.recipeIngredients ==> ri.recipe in db.recipes && ri.ingredient in db.ingredients)
    && (forall p :: p in Relation.Pairs(db.favorites) ==> p.0 in db.users && p.1 in db.recipes)
    && (forall p :: p in Relation.Pairs(db.carts) ==> p.0 in db.users && p.1 in db.recipes)
    && (forall p :: p in Relation.Pairs(db.subscriptions) ==> p.0 in db.users && p.1 in db.users)
    && (forall l :: l in db.links ==> l.recipe in db.recipes)
    && (forall u :: u in db.avatars ==> u in db.users)
  }

  predicate Consistent(db: Db)
  {
    && FieldsFit(db)
    && References(db)
    && UniqueSlugs(db.links)
    && Relation.Valid(db.favorites) && Relation.Valid(db.carts) && Relation.Valid(db.subscriptions)
    && (forall k :: k in db.recipes ==> k < db.nextRecipeId)
  }

  // ---------------------------------------------------------------------------
  // Cascades

  function IngredientRowsNotOf(rows: seq<RecipeIngredient>, recipes: set<nat>, ingredients: set<nat>)
    : (kept: seq<RecipeIngredient>)
    ensures forall ri :: ri in kept <==> ri in rows && ri.recipe !in recipes && ri.ingredient !in ingredients
  {
    if |rows| == 0 then []
    else if rows[0].recipe in recipes || rows[0].ingredient in ingredients then
      IngredientRowsNotOf(rows[1..], recipes, ingredients)
    else [rows[0]] + IngredientRowsNotOf(rows[1..], recipes, ingredients)
  }

  function LinksNotOf(links: seq<ShortLink>, recipes: set<nat>): (kept: seq<ShortLink>)
    ensures forall l :: l in kept <==> l in links && l.recipe !in recipes
    ensures UniqueSlugs(links) ==> UniqueSlugs(kept)
  {
    if |links| == 0 then []
    else if links[0].recipe in recipes then LinksNotOf(links[1..], recipes)
    else [links[0]] + LinksNotOf(links[1..], recipes)
  }

  /** Deleting recipes deletes their ingredient rows, favorites, cart rows and
      short links (`on_delete=CASCADE`); nothing else changes. */
  function DeleteRecipes(db: Db, ids: set<nat>): (db': Db)
    ensures Consistent(db) ==> Consistent(db')
    ensures db'.recipes.Keys == db.recipes.Keys - ids
    ensures forall k :: k in db'.recipes ==> db'.recipes[k] == db.recipes[k]
    ensures forall ri :: ri in db'.recipeIngredients <==> ri in db.recipeIngredients && ri.recipe !in ids
    ensures forall r :: r in db'.favorites.rows <==> r in db.favorites.rows && r.target !in ids
    ensures forall r :: r in db'.carts.rows <==> r in db.carts.rows && r.target !in ids
    ensures forall l :: l in db'.links <==> l in db.links && l.recipe !in ids
    ensures db'.users == db.users && db'.ingredients == db.ingredients
    ensures db'.subscriptions == db.subscriptions && db'.avatars == db.avatars
  {
    db.(recipes := map k | k in db.recipes && k !in ids :: db.recipes[k],
        recipeIngredients := IngredientRowsNotOf(db.recipeIngredients, ids, {}),
        favorites := Relation.Cascade(db.favorites, {}, ids),
        carts := Relation.Cascade(db.carts, {}, ids),
        links := LinksNotOf(db.links, ids))
  }

  function DeleteRecipe(db: Db, id: nat): (db': Db)
    ensures Consistent(db) ==> Consistent(db')
    ensures id !in db'.recipes
    ensures forall ri :: ri in db'.recipeIngredients ==> ri.recipe != id
    ensures forall r :: r in db'.favorites.rows ==> r.target != id
    ensures forall l :: l in db'.links ==> l.recipe != id
  {
    DeleteRecipes(db, {id})
  }

  /** A cascade that matches no row leaves the ingredient rows as they were. */
  lemma {:induction false} NoIngredientRowsOf(rows: seq<RecipeIngredient>, id: nat)
    requires forall ri :: ri in rows ==> ri.recipe != id
    ensures IngredientRowsNotOf(rows, {id}, {}) == rows
  {
    if |rows| > 0 {
      assert rows[0] in rows;
      NoIngredientRowsOf(rows[1..], id);
      assert rows == [rows[0]] + rows[1..];
    }
  }

  lemma {:induction false} NoLinksOf(links: seq<ShortLink>, id: nat)
    requires forall l :: l in links ==> l.recipe != id
    ensures LinksNotOf(links, {id}) == links
  {
    if |links| > 0 {
      assert links[0] in links;
      NoLinksOf(links[1..], id);
      assert links == [links[0]] + links[1..];
    }
  }

  /** `Recipe.objects.create`: the recipe is stored under an id no recipe of a
      consistent database has, the id sequence advances past it, and nothing
      else changes. A stored author and a name that fits keep the database
      consistent. */
  function AddRecipe(db: Db, r: Recipe): (db': Db)
    ensures db' == db.(recipes := db'.recipes, nextRecipeId := db'.nextRecipeId)
    ensures db'.recipes == db.recipes[db.nextRecipeId := r]
    ensures db'.nextRecipeId == db.nextRecipeId + 1
    ensures Consistent(db) ==> db.nextRecipeId !in db.recipes
    ensures Consistent(db) && r.author in db.users && |r.name| <= RecipeNameMaxLength ==> Consistent(db')
  {
    db.(recipes := db.recipes[db.nextRecipeId := r], nextRecipeId := db.nextRecipeId + 1)
  }

  /** Nothing in the database refers to recipe `id`, and no recipe has it. */
  predicate Unreferenced(db: Db, id: nat)
  {
    && id !in db.recipes
    && (forall ri :: ri in db.recipeIngredients ==> ri.recipe != id)
    && (forall l :: l in db.links ==> l.recipe != id)
    && (forall p :: p in Relation.Pairs(db.favorites) ==> p.1 != id)
    && (forall p :: p in Relation.Pairs(db.carts) ==> p.1 != id)
  }

  lemma NextIdUnreferenced(db: Db)
    requires Consistent(db)
    ensures Unreferenced(db, db.nextRecipeId)
  {
  }

  /** Creating a recipe and deleting it again, before anything refers to it,
      gives the database back with only the id sequence advanced. */
  lemma DeleteFreshRecipe(db: Db, r: Recipe)
    requires Consistent(db)
    ensures DeleteRecipe(AddRecipe(db, r), db.nextRecipeId) == db.(nextRecipeId := db.nextRecipeId + 1)
  {
    NextIdUnreferenced(db);
    DeleteUnreferenced(db, r);
  }

  lemma DeleteUnreferenced(db: Db, r: Recipe)
    requires Unreferenced(db, db.nextRecipeId)
    ensures DeleteRecipe(AddRecipe(db, r), db.nextRecipeId) == db.(nextRecipeId := db.nextRecipeId + 1)
  {
    var id := db.nextRecipeId;
    var db1 := AddRecipe(db, r);
    var db2 := DeleteRecipe(db1, id);
    assert db2.recipes == db.recipes;
    NoIngredientRowsOf(db.recipeIngredients, id);
    NoLinksOf(db.links, id);
    Relation.CascadeMissesAll(db.favorites, id);
    Relation.CascadeMissesAll(db.carts, id);
  }

  /** The ingredient rows of one recipe (its `recipe_ingredients`), in order. */
  function IngredientsOf(rows: seq<RecipeIngredient>, recipe: nat): (own: seq<RecipeIngredient>)
    ensures forall ri :: ri in own <==> ri in rows && ri.recipe == recipe
  {
    if |rows| == 0 then []
    else if rows[0].recipe == recipe then [rows[0]] + IngredientsOf(rows[1..], recipe)
    else IngredientsOf(rows[1..], recipe)
  }

  lemma {:induction false} IngredientsOfConcat(a: seq<RecipeIngredient>, b: seq<RecipeIngredient>, recipe: nat)
    ensures IngredientsOf(a + b, recipe) == IngredientsOf(a, recipe) + IngredientsOf(b, recipe)
  {
    if |a| > 0 {
      assert (a + b)[1..] == a[1..] + b;
      IngredientsOfConcat(a[1..], b, recipe);
    } else {
      assert a + b == b;
    }
  }

  /** Deleting a catalogue ingredient deletes the recipe rows that use it. */
  function DeleteIngredient(db: Db, id: nat): (db': Db)
    ensures Consistent(db) ==> Consistent(db')
    ensures db'.ingredients.Keys == db.ingredients.Keys - {id}
    ensures forall ri :: ri in db'.recipeIngredients <==> ri in db.recipeIngredients && ri.ingredient != id
    ensures forall k :: k in db'.ingredients ==> db'.ingredients[k] == db.ingredients[k]
    ensures db' == db.(ingredients := db'.ingredients, recipeIngredients := db'.recipeIngredients)
  {
    db.(ingredients := map k | k in db.ingredients && k != id :: db.ingredients[k],
        recipeIngredients := IngredientRowsNotOf(db.recipeIngredients, {}, {id}))
  }

  function AuthoredBy(db: Db, user: nat): set<nat>
  {
    set k | k in db.recipes && db.recipes[k].author == user
  }

  /** Deleting a user deletes the recipes they wrote (with those recipes' own
      cascades), their favorites and cart rows, the subscriptions on either side,
      and their avatar. */
  function DeleteUser(db: Db, user: nat): (db': Db)
    ensures Consistent(db) ==> Consistent(db')
    ensures user !in db'.users && user !in db'.avatars
    ensures forall k :: k in db'.recipes <==> k in db.recipes && db.recipes[k].author != user
    ensures forall r :: r in db'.favorites.rows <==>
              r in db.favorites.rows && r.actor != user && r.target !in AuthoredBy(db, user)
    ensures forall r :: r in db'.subscriptions.rows <==>
              r in db.subscriptions.rows && r.actor != user && r.target != user
    ensures forall r :: r in db'.carts.rows <==>
              r in db.carts.rows && r.actor != user && r.target !in AuthoredBy(db, user)
    ensures db'.users == db.users - {user}
    ensures forall k :: k in db'.recipes ==> db'.recipes[k] == db.recipes[k]
    ensures db'.ingredients == db.ingredients
    ensures forall ri :: ri in db'.recipeIngredients <==>
              ri in db.recipeIngredients && ri.recipe !in AuthoredBy(db, user)
    ensures forall l :: l in db'.links <==> l in db.links && l.recipe !in AuthoredBy(db, user)
    ensures forall u :: u in db'.avatars <==> u in db.avatars && u != user
    ensures forall u :: u in db'.avatars ==> db'.avatars[u] == db.avatars[u]
  {
    DropUser(DeleteRecipes(db, AuthoredBy(db, user)), user)
  }

  /** The rows of a user who no longer authors any recipe: their favorites and
      cart rows, the subscriptions on either side, their avatar, and the user. */
  function DropUser(db: Db, user: nat): (db': Db)
    ensures Consistent(db) && (forall k :: k in db.recipes ==> db.recipes[k].author != user) ==> Consistent(db')
    ensures db'.users == db.users - {user} && user !in db'.avatars
    ensures db'.recipes == db.recipes
    ensures forall r :: r in db'.favorites.rows <==> r in db.favorites.rows && r.actor != user
    ensures forall r :: r in db'.carts.rows <==> r in db.carts.rows && r.actor != user
    ensures forall r :: r in db'.subscriptions.rows <==>
              r in db.subscriptions.rows && r.actor != user && r.target != user
    ensures forall u :: u in db'.avatars <==> u in db.avatars && u != user
    ensures forall u :: u in db'.avatars ==> db'.avatars[u] == db.avatars[u]
    ensures db'.ingredients == db.ingredients && db'.recipeIngredients == db.recipeIngredients
    ensures db'.links == db.links
  {
    var f := Relation.Cascade(db.favorites, {user}, {});
    var c := Relation.Cascade(db.carts, {user}, {});
    var s := Relation.Cascade(db.subscriptions, {user}, {user});
    var av := map u | u in db.avatars && u != user :: db.avatars[u];
    DropUserConsistent(db, user, f, c, s, av);
    db.(users := db.users - {user}, favorites := f, carts := c, subscriptions := s, avatars := av)
  }

  /** Removing a user who authors no recipe keeps the database consistent when
      the join tables and avatars that replace the old ones drop every row
      naming that user and add none. */
  lemma DropUserConsistent(db: Db, user: nat, f: Relation.Table, c: Relation.Table, s: Relation.Table,
                           av: map<nat, Option<string>>)
    requires forall p :: p in Relation.Pairs(f) ==> p in Relation.Pairs(db.favorites) && p.0 != user
    requires forall p :: p in Relation.Pairs(c) ==> p in Relation.Pairs(db.carts) && p.0 != user
    requires forall p :: p in Relation.Pairs(s) ==>
               p in Relation.Pairs(db.subscriptions) && p.0 != user && p.1 != user
    requires forall u :: u in av ==> u in db.avatars && u != user
    ensures Consistent(db) && (forall k :: k in db.recipes ==> db.recipes[k].author != user)
            && Relation.Valid(f) && Relation.Valid(c) && Relation.Valid(s) ==>
              Consistent(db.(users := db.users - {user}, favorites := f, carts := c, subscriptions := s, avatars := av))
  {
    var db' := db.(users := db.users - {user}, favorites := f, carts := c, subscriptions := s, avatars := av);
    if Consistent(db) && (forall k :: k in db.recipes ==> db.recipes[k].author != user) {
      assert FieldsFit(db') && UniqueSlugs(db'.links);
      assert References(db');
    }
  }

  // ---------------------------------------------------------------------------
  // Replacing one join table

  /** A favorites table that adds at most the pair of an existing user and
      recipe to a consistent database keeps it consistent. */
  lemma FavoritesWithin(db: Db, t: Relation.Table, actor: nat, target: nat)
    requires Consistent(db) && Relation.Valid(t) && target in db.recipes
    requires Relation.Pairs(t) <= Relation.Pairs(db.favorites) + {(actor, target)}
    ensures actor in db.users ==> Consistent(db.(favorites := t))
  {
  }

  /** The same for the shopping-cart table. */
  lemma CartsWithin(db: Db, t: Relation.Table, actor: nat, target: nat)
    requires Consistent(db) && Relation.Valid(t) && target in db.recipes
    requires Relation.Pairs(t) <= Relation.Pairs(db.carts) + {(actor, target)}
    ensures actor in db.users ==> Consistent(db.(carts := t))
  {
  }

  /** The same for the subscription table, whose targets are users. */
  lemma SubscriptionsWithin(db: Db, t: Relation.Table, actor: nat, target: nat)
    requires Consistent(db) && Relation.Valid(t) && target in db.users
    requires Relation.Pairs(t) <= Relation.Pairs(db.subscriptions) + {(actor, target)}
    ensures actor in db.users ==> Consistent(db.(subscriptions := t))
  {
  }

  // ---------------------------------------------------------------------------
  // What the schema alone permits

  /** A database the schema accepts although the serializer would never write
      it: recipe 1 lists salt twice, has cooking time 0 and an amount of 0, and
      carries two short links. */
  function LooseExample(): Db
  {
    Db(
      users := {1},
      ingredients := map[1 := Ingredient("Salt", "g")],
      recipes := map[1 := Recipe(1, "Soup", None, "", 0)],
      nextRecipeId := 2,
      recipeIngredients := [RecipeIngredient(1, 1, 0), RecipeIngredient(1, 1, 0)],
      favorites := Relation.Table([], 1),
      carts := Relation.Table([], 1),
      subscriptions := Relation.Table([], 1),
      links := [ShortLink(1, "a"), ShortLink(1, "b")],
      avatars := map[])
  }

  /** The schema places no uniqueness on (recipe, ingredient), no lower bound
      above 0 on amounts and cooking times, and no limit of one link per recipe. */
  lemma SchemaLooserThanSerializer()
    ensures var db := LooseExample();
            && Consistent(db)
            && |IngredientsOf(db.recipeIngredients, 1)| == 2
            && db.recipeIngredients[0] == db.recipeIngredients[1]
            && db.recipes[1].cookingTime == 0 && db.recipeIngredients[0].amount == 0
            && db.links[0].recipe == db.links[1].recipe
  {
    var db := LooseExample();
    var rows := db.recipeIngredients;
    assert rows[1..] == [rows[1]];
    assert rows[1..][1..] == [];
    assert db.links[1..] == [db.links[1]];
  }
}
