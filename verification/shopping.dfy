/** The shopping-list download: the ingredient rows of the recipes in a user's
    cart, grouped by (ingredient name, measurement unit) with their amounts
    summed, ordered by name and rendered as text. */
module ShoppingList {

  import opened Common
  import opened Text
  import Relation
  import Schema

  datatype Key = Key(name: string, unit: string)

  /** One line of the list: `total` units of the ingredient `key`. */
  datatype Entry = Entry(key: Key, total: nat)

  /** The text returned when nothing is selected. */
  function EmptyCart(): string { "Your shopping cart is empty." }

  // ---------------------------------------------------------------------------
  // The reference definition: which rows are selected and what they add up to

  /** A row takes part when its recipe is selected; the join with the catalogue
      (`ingredient__name`) drops rows whose ingredient is not there. */
  predicate Selected(catalog: map<nat, Schema.Ingredient>, recipes: set<nat>, ri: Schema.RecipeIngredient)
  {
    ri.recipe in recipes && ri.ingredient in catalog
  }

  function KeyOf(catalog: map<nat, Schema.Ingredient>, ri: Schema.RecipeIngredient): Key
    requires ri.ingredient in catalog
  {
    Key(catalog[ri.ingredient].name, catalog[ri.ingredient].measurementUnit)
  }

  /** The (name, unit) groups the selected rows fall into. */
  function Keys(rows: seq<Schema.RecipeIngredient>, catalog: map<nat, Schema.Ingredient>,
                recipes: set<nat>): set<Key>
  {
    set ri | ri in rows && Selected(catalog, recipes, ri) :: KeyOf(catalog, ri)
  }

  /** `Sum("amount")` over the selected rows of group `k`; every row counts once. */
  function Total(rows: seq<Schema.RecipeIngredient>, catalog: map<nat, Schema.Ingredient>,
                 recipes: set<nat>, k: Key): nat
  {
    if |rows| == 0 then 0
    else
      (if Selected(catalog, recipes, rows[0]) && KeyOf(catalog, rows[0]) == k then rows[0].amount else 0)
      + Total(rows[1..], catalog, recipes, k)
  }

  // ---------------------------------------------------------------------------
  // Ordering of groups: by name, then by unit

  predicate KeyLess(a: Key, b: Key)
  {
    Less(a.name, b.name) || (a.name == b.name && Less(a.unit, b.unit))
  }

  lemma KeyLessIrreflexive(a: Key)
    ensures !KeyLess(a, a)
  {
    LessIrreflexive(a.name);
    LessIrreflexive(a.unit);
  }

  lemma KeyLessTransitive(a: Key, b: Key, c: Key)
    requires KeyLess(a, b) && KeyLess(b, c)
    ensures KeyLess(a, c)
  {
    if Less(a.name, b.name) && Less(b.name, c.name) {
      LessTransitive(a.name, b.name, c.name);
    } else if a.name == b.name && b.name == c.name {
      LessTransitive(a.unit, b.unit, c.unit);
    }
  }

  lemma KeyLessTrichotomy(a: Key, b: Key)
    ensures a == b || KeyLess(a, b) || KeyLess(b, a)
  {
    LessTrichotomy(a.name, b.name);
    LessTrichotomy(a.unit, b.unit);
  }

  /** Each entry's key is strictly below the next one's. */
  predicate Sorted(g: seq<Entry>)
  {
    forall i :: 0 < i < |g| ==> KeyLess(g[i - 1].key, g[i].key)
  }

  function KeySet(g: seq<Entry>): set<Key>
  {
    set e | e in g :: e.key
  }

  /** The total recorded for `k`, or 0 when `k` has no entry. */
  function Lookup(g: seq<Entry>, k: Key): nat
  {
    if |g| == 0 then 0 else if g[0].key == k then g[0].total else Lookup(g[1..], k)
  }

  /** In a sorted list every key after the first is above the first. */
  lemma {:induction false} SortedHeadLeast(g: seq<Entry>)
    requires Sorted(g)
    ensures forall i :: 0 < i < |g| ==> KeyLess(g[0].key, g[i].key)
    decreases |g|
  {
    if |g| > 1 {
      SortedHeadLeast(g[1..]);
      forall i | 1 < i < |g|
        ensures KeyLess(g[0].key, g[i].key)
      {
        assert g[1..][i - 1] == g[i];
        KeyLessTransitive(g[0].key, g[1].key, g[i].key);
      }
    }
  }

  /** A key below every key of a sorted list has no entry in it. */
  lemma {:induction false} LookupBelow(g: seq<Entry>, k: Key)
    requires Sorted(g) && (|g| == 0 || KeyLess(k, g[0].key))
    ensures Lookup(g, k) == 0 && k !in KeySet(g)
    decreases |g|
  {
    if |g| > 0 {
      KeyLessIrreflexive(k);
      SortedHeadLeast(g);
      if |g| > 1 {
        KeyLessTransitive(k, g[0].key, g[1].key);
      }
      LookupBelow(g[1..], k);
      assert g == [g[0]] + g[1..];
    }
  }

  /** `r` is `g` with `a` added to the group `k`, still in order. */
  ghost predicate AddedTo(g: seq<Entry>, k: Key, a: nat, r: seq<Entry>)
  {
    && Sorted(r)
    && |r| > 0 && (r[0].key == k || (|g| > 0 && r[0].key == g[0].key))
    && KeySet(r) == KeySet(g) + {k}
    && forall j :: Lookup(r, j) == Lookup(g, j) + (if j == k then a else 0)
  }

  /** Adds `a` to the group `k`, inserting the group in order if it is new. */
  function Add(g: seq<Entry>, k: Key, a: nat): (r: seq<Entry>)
    requires Sorted(g)
    ensures Sorted(r)
    ensures |r| > 0 && (r[0].key == k || (|g| > 0 && r[0].key == g[0].key))
    ensures KeySet(r) == KeySet(g) + {k}
    ensures forall j :: Lookup(r, j) == Lookup(g, j) + (if j == k then a else 0)
    decreases |g|
  {
    if |g| == 0 then [Entry(k, a)]
    else if g[0].key == k then
      AddToHead(g, a);
      [Entry(k, g[0].total + a)] + g[1..]
    else if KeyLess(k, g[0].key) then
      AddBeforeHead(g, k, a);
      [Entry(k, a)] + g
    else
      KeyLessTrichotomy(k, g[0].key);
      var rest := Add(g[1..], k, a);
      AddAfterHead(g, k, a, rest);
      [g[0]] + rest
  }

  lemma AddToHead(g: seq<Entry>, a: nat)
    requires Sorted(g) && |g| > 0
    ensures AddedTo(g, g[0].key, a, [Entry(g[0].key, g[0].total + a)] + g[1..])
  {
    LookupBelowAfterHead(g);
    assert g == [g[0]] + g[1..];
  }

  lemma AddBeforeHead(g: seq<Entry>, k: Key, a: nat)
    requires Sorted(g) && |g| > 0 && KeyLess(k, g[0].key)
    ensures AddedTo(g, k, a, [Entry(k, a)] + g)
  {
    LookupBelow(g, k);
    var r := [Entry(k, a)] + g;
    assert r[1..] == g;
  }

  lemma AddAfterHead(g: seq<Entry>, k: Key, a: nat, rest: seq<Entry>)
    requires Sorted(g) && |g| > 0 && KeyLess(g[0].key, k)
    requires AddedTo(g[1..], k, a, rest)
    ensures AddedTo(g, k, a, [g[0]] + rest)
  {
    var r := [g[0]] + rest;
    assert r[1..] == rest;
    assert g == [g[0]] + g[1..];
    KeyLessIrreflexive(k);
    assert KeyLess(r[0].key, r[1].key) by {
      if |g| > 1 {
        assert KeyLess(g[0].key, g[1].key);
      }
    }
    assert Sorted(r) by {
      forall i | 1 < i < |r|
        ensures KeyLess(r[i - 1].key, r[i].key)
      {
        assert r[i - 1] == rest[i - 2] && r[i] == rest[i - 1];
      }
    }
    assert KeySet(r) == {g[0].key} + KeySet(rest);
    assert KeySet(g) == {g[0].key} + KeySet(g[1..]);
    forall j
      ensures Lookup(r, j) == Lookup(g, j) + (if j == k then a else 0)
    {
      if j != g[0].key {
        assert Lookup(r, j) == Lookup(rest, j);
      }
    }
  }

  /** In a sorted list the first key has no entry further on. */
  lemma LookupBelowAfterHead(g: seq<Entry>)
    requires Sorted(g) && |g| > 0
    ensures Lookup(g[1..], g[0].key) == 0 && g[0].key !in KeySet(g[1..])
  {
    LookupBelow(g[1..], g[0].key);
  }

  /** The groups of the selected rows, in key order, with their totals. */
  function Group(rows: seq<Schema.RecipeIngredient>, catalog: map<nat, Schema.Ingredient>,
                 recipes: set<nat>): (g: seq<Entry>)
    ensures Sorted(g)
    ensures KeySet(g) == Keys(rows, catalog, recipes)
    ensures forall k :: Lookup(g, k) == Total(rows, catalog, recipes, k)
  {
    if |rows| == 0 then []
    else
      var rest := Group(rows[1..], catalog, recipes);
      assert rows == [rows[0]] + rows[1..];
      if Selected(catalog, recipes, rows[0]) then
        assert Keys(rows, catalog, recipes) == Keys(rows[1..], catalog, recipes) + {KeyOf(catalog, rows[0])};
        Add(rest, KeyOf(catalog, rows[0]), rows[0].amount)
      else
        assert Keys(rows, catalog, recipes) == Keys(rows[1..], catalog, recipes);
        rest
  }

  /** In a sorted list the entry of a key carries that key's recorded total. */
  lemma {:induction false} EntryTotalIsLookup(g: seq<Entry>, i: nat)
    requires Sorted(g) && i < |g|
    ensures Lookup(g, g[i].key) == g[i].total
    decreases i
  {
    if i > 0 {
      SortedHeadLeast(g);
      KeyLessIrreflexive(g[0].key);
      assert g[1..][i - 1] == g[i];
      EntryTotalIsLookup(g[1..], i - 1);
    }
  }

  /** The aggregation: one entry per distinct (name, unit) among the selected rows,
      no two entries for the same group, ordered by name (then unit), and each
      total the sum of the amounts of that group's rows. */
  lemma Aggregation(rows: seq<Schema.RecipeIngredient>, catalog: map<nat, Schema.Ingredient>,
                    recipes: set<nat>)
    ensures var g := Group(rows, catalog, recipes);
            && KeySet(g) == Keys(rows, catalog, recipes)
            && (forall i, j :: 0 <= i < j < |g| ==> KeyLess(g[i].key, g[j].key))
            && (forall i, j :: 0 <= i < j < |g| ==> LessEq(g[i].key.name, g[j].key.name))
            && (forall i :: 0 <= i < |g| ==> g[i].total == Total(rows, catalog, recipes, g[i].key))
            && (|g| == 0 <==> forall ri :: ri in rows ==> !Selected(catalog, recipes, ri))
  {
    var g := Group(rows, catalog, recipes);
    forall i, j | 0 <= i < j < |g|
      ensures KeyLess(g[i].key, g[j].key)
    {
      SortedHeadLeast(g[i..]);
      assert g[i..][j - i] == g[j];
    }
    forall i | 0 <= i < |g|
      ensures g[i].total == Total(rows, catalog, recipes, g[i].key)
    {
      EntryTotalIsLookup(g, i);
    }
    if |g| > 0 {
      assert g[0].key in KeySet(g);
    }
    forall ri | ri in rows && Selected(catalog, recipes, ri)
      ensures |g| > 0
    {
      assert KeyOf(catalog, ri) in Keys(rows, catalog, recipes);
    }
  }

  // ---------------------------------------------------------------------------
  // Rendering

  function Line(e: Entry): string
  {
    e.key.name + ": " + NatToString(e.total) + " (" + e.key.unit + ")"
  }

  function Lines(g: seq<Entry>): (ls: seq<string>)
    ensures |ls| == |g|
    ensures forall i :: 0 <= i < |g| ==> ls[i] == Line(g[i])
  {
    if |g| == 0 then [] else [Line(g[0])] + Lines(g[1..])
  }

  /** The downloaded text: the lines joined by "\n", or the fixed sentinel. */
  function Render(g: seq<Entry>): string
  {
    if |g| == 0 then EmptyCart() else Join(Lines(g), "\n")
  }

  /** A joined string begins with its first piece. */
  lemma {:induction false} JoinStartsWithFirst(parts: seq<string>, sep: string)
    requires |parts| > 0
    ensures StartsWith(Join(parts, sep), parts[0])
  {
  }

  /** The sentinel is returned exactly when there is nothing to list: every
      rendered line contains ':' and the sentinel does not. */
  lemma RenderEmptyIff(g: seq<Entry>)
    ensures Render(g) == EmptyCart() <==> |g| == 0
  {
    if |g| > 0 {
      var ls := Lines(g);
      JoinStartsWithFirst(ls, "\n");
      var s := Render(g);
      assert s[|g[0].key.name|] == ls[0][|g[0].key.name|] == ':';
      assert CharFree(EmptyCart(), ':');
    }
  }

  /** With names and units free of line breaks, the rendered text splits on "\n"
      into exactly one line per entry, `name: total (unit)`, in order; so there is
      no trailing newline. */
  lemma RenderLines(g: seq<Entry>)
    requires |g| > 0
    requires forall e :: e in g ==> CharFree(e.key.name, '\n') && CharFree(e.key.unit, '\n')
    ensures Split(Render(g), "\n") == Lines(g)
  {
    LinesHaveNoBreak(g);
    RenderedSplit(g);
  }

  lemma RenderedSplit(g: seq<Entry>)
    requires |g| > 0 && NoBreaks(Lines(g))
    ensures Split(Render(g), "\n") == Lines(g)
  {
    SplitJoinedLines(Lines(g));
  }

  /** No line contains a line break. */
  predicate NoBreaks(ls: seq<string>)
  {
    forall k :: 0 <= k < |ls| ==> !Contains(ls[k], "\n")
  }

  lemma SplitJoinedLines(ls: seq<string>)
    requires 1 <= |ls| && NoBreaks(ls)
    ensures Split(Join(ls, "\n"), "\n") == ls
  {
    SplitJoin(ls, "\n");
  }

  lemma LinesHaveNoBreak(g: seq<Entry>)
    requires forall e :: e in g ==> CharFree(e.key.name, '\n') && CharFree(e.key.unit, '\n')
    ensures NoBreaks(Lines(g))
  {
    forall i | 0 <= i < |g|
      ensures !Contains(Lines(g)[i], "\n")
    {
      assert g[i] in g;
      LineHasNoBreak(g[i]);
    }
  }

  lemma LineHasNoBreak(e: Entry)
    requires CharFree(e.key.name, '\n') && CharFree(e.key.unit, '\n')
    ensures !Contains(Line(e), "\n")
  {
    assert CharFree(NatToString(e.total), '\n');
    assert CharFree(Line(e), '\n');
    CharFreeNotContains(Line(e), '\n');
  }

  // ---------------------------------------------------------------------------
  // The two download views

  /** The recipes in the user's cart (`values("recipe")`). */
  function CartRecipes(carts: Relation.Table, user: nat): (ids: set<nat>)
    ensures forall r :: r in carts.rows && r.actor == user ==> r.target in ids
    ensures forall id :: id in ids ==> Relation.Related(carts, user, id)
  {
    set r | r in carts.rows && r.actor == user :: r.target
  }

  /** The ids of the user's cart rows (`values("id")`). */
  function CartRowIds(carts: Relation.Table, user: nat): (ids: set<nat>)
    ensures forall id :: id in ids <==> exists r :: r in carts.rows && r.actor == user && r.id == id
    ensures Relation.Valid(carts) ==> forall id :: id in ids ==> id < carts.nextId
  {
    set r | r in carts.rows && r.actor == user :: r.id
  }

  /** On a valid table a user's cart rows and the recipes they point at are in
      one-to-one correspondence, so the row ids are as many as the recipes. */
  lemma CartRowIdsCount(carts: Relation.Table, user: nat)
    requires Relation.Valid(carts)
    ensures |CartRowIds(carts, user)| == |CartRecipes(carts, user)|
  {
    var mine := set r | r in carts.rows && r.actor == user;
    forall r1, r2 | r1 in mine && r2 in mine && r1.target == r2.target
      ensures r1 == r2
    {
      assert Relation.PairOf(r1) == Relation.PairOf(r2);
    }
    IdsCount(mine);
    TargetsCount(mine);
    assert CartRowIds(carts, user) == set r | r in mine :: r.id;
    assert CartRecipes(carts, user) == set r | r in mine :: r.target;
  }

  /** Rows with distinct ids have as many ids as rows. */
  lemma {:induction false} IdsCount(rows: set<Relation.Row>)
    requires forall r1, r2 :: r1 in rows && r2 in rows && r1.id == r2.id ==> r1 == r2
    ensures |set r | r in rows :: r.id| == |rows|
    decreases |rows|
  {
    if rows != {} {
      var x :| x in rows;
      var rest := rows - {x};
      IdsCount(rest);
      assert (set r | r in rows :: r.id) == (set r | r in rest :: r.id) + {x.id};
      assert x.id !in (set r | r in rest :: r.id);
    }
  }

  /** Rows with distinct targets have as many targets as rows. */
  lemma {:induction false} TargetsCount(rows: set<Relation.Row>)
    requires forall r1, r2 :: r1 in rows && r2 in rows && r1.target == r2.target ==> r1 == r2
    ensures |set r | r in rows :: r.target| == |rows|
    decreases |rows|
  {
    if rows != {} {
      var x :| x in rows;
      var rest := rows - {x};
      TargetsCount(rest);
      assert (set r | r in rows :: r.target) == (set r | r in rest :: r.target) + {x.target};
      assert x.target !in (set r | r in rest :: r.target);
    }
  }

  /** The grouped list for the recipes in the user's cart. */
  function CartList(db: Schema.Db, user: nat): seq<Entry>
  {
    Group(db.recipeIngredients, db.ingredients, CartRecipes(db.carts, user))
  }

  /** backend/api/views.py `download_shopping_cart`. */
  function DownloadShoppingCart(db: Schema.Db, user: nat): (text: string)
    ensures text == EmptyCart() <==>
              forall ri :: ri in db.recipeIngredients && Relation.Related(db.carts, user, ri.recipe) ==>
                ri.ingredient !in db.ingredients
  {
    var g := CartList(db, user);
    Aggregation(db.recipeIngredients, db.ingredients, CartRecipes(db.carts, user));
    RenderEmptyIff(g);
    assert forall ri :: ri in db.recipeIngredients && Relation.Related(db.carts, user, ri.recipe) ==>
             ri.recipe in CartRecipes(db.carts, user);
    Render(g)
  }

  /** The list names exactly the ingredients of the recipes in the user's cart:
      every catalogued ingredient row of a cart recipe has its group in the list,
      and every group in the list comes from such a row. */
  lemma CartListIsCartIngredients(db: Schema.Db, user: nat)
    ensures forall ri ::
              (ri in db.recipeIngredients && ri.ingredient in db.ingredients
               && Relation.Related(db.carts, user, ri.recipe))
              ==> KeyOf(db.ingredients, ri) in KeySet(CartList(db, user))
    ensures forall k :: k in KeySet(CartList(db, user)) ==>
              exists ri :: ri in db.recipeIngredients && ri.ingredient in db.ingredients
                && Relation.Related(db.carts, user, ri.recipe) && KeyOf(db.ingredients, ri) == k
  {
    var recipes := CartRecipes(db.carts, user);
    assert KeySet(CartList(db, user)) == Keys(db.recipeIngredients, db.ingredients, recipes);
    forall ri | ri in db.recipeIngredients && ri.ingredient in db.ingredients
              && Relation.Related(db.carts, user, ri.recipe)
      ensures KeyOf(db.ingredients, ri) in KeySet(CartList(db, user))
    {
      assert ri.recipe in recipes;
    }
  }

  /** The grouped list `download_shopping_cart` in backend/recipes/views.py builds:
      it selects the recipes whose ids equal the ids of the user's cart rows. */
  function CartListByRowIds(db: Schema.Db, user: nat): seq<Entry>
  {
    Group(db.recipeIngredients, db.ingredients, CartRowIds(db.carts, user))
  }

  /** backend/recipes/views.py `download_shopping_cart`, as written. */
  function DownloadShoppingCartByRowIds(db: Schema.Db, user: nat): (text: string)
    ensures text == EmptyCart() <==>
              forall ri :: ri in db.recipeIngredients && ri.recipe in CartRowIds(db.carts, user) ==>
                ri.ingredient !in db.ingredients
  {
    var g := CartListByRowIds(db, user);
    Aggregation(db.recipeIngredients, db.ingredients, CartRowIds(db.carts, user));
    RenderEmptyIff(g);
    Render(g)
  }

  // ---------------------------------------------------------------------------
  // Worked examples

  /** Two recipes in the cart using 5 g and 3 g of salt give one line, 8 g. */
  lemma SaltAddsUp()
    ensures var catalog := map[1 := Schema.Ingredient("Salt", "g")];
            var rows := [Schema.RecipeIngredient(10, 1, 5), Schema.RecipeIngredient(20, 1, 3)];
            Render(Group(rows, catalog, {10, 20})) == "Salt: 8 (g)"
  {
    var catalog := map[1 := Schema.Ingredient("Salt", "g")];
    var rows := [Schema.RecipeIngredient(10, 1, 5), Schema.RecipeIngredient(20, 1, 3)];
    var salt := Key("Salt", "g");
    assert rows[1..] == [rows[1]];
    assert rows[1..][1..] == [];
    assert Group(rows[1..][1..], catalog, {10, 20}) == [];
    assert Group(rows[1..], catalog, {10, 20}) == [Entry(salt, 3)];
    assert Group(rows, catalog, {10, 20}) == [Entry(salt, 8)];
    assert NatToString(8) == "8";
  }

  /** A database in which user 1's only cart row has id 7 and points at recipe 1
      (salt); recipe 7 (sugar) is not in the cart. */
  function RowIdExample(): Schema.Db
  {
    Schema.Db(
      users := {1},
      ingredients := map[1 := Schema.Ingredient("Salt", "g"), 2 := Schema.Ingredient("Sugar", "g")],
      recipes := map[1 := Schema.Recipe(1, "Soup", None, "", 10), 7 := Schema.Recipe(1, "Cake", None, "", 30)],
      nextRecipeId := 8,
      recipeIngredients := [Schema.RecipeIngredient(1, 1, 5), Schema.RecipeIngredient(7, 2, 3)],
      favorites := Relation.Table([], 1),
      carts := Relation.Table([Relation.Row(7, 1, 1)], 8),
      subscriptions := Relation.Table([], 1),
      links := [],
      avatars := map[])
  }

  lemma RowIdExampleConsistent()
    ensures Schema.Consistent(RowIdExample())
  {
  }

  lemma RowIdExampleCartList()
    ensures CartList(RowIdExample(), 1) == [Entry(Key("Salt", "g"), 5)]
  {
    var db := RowIdExample();
    var rows := db.recipeIngredients;
    assert CartRecipes(db.carts, 1) == {1};
    assert rows[1..] == [rows[1]];
    assert rows[1..][1..] == [];
    assert Group(rows[1..], db.ingredients, {1}) == [];
  }

  /** Keying on cart-row ids lists the sugar of recipe 7, which is not in the cart,
      instead of the salt of recipe 1, which is. */
  lemma RowIdsListWrongRecipe()
    ensures Relation.Pairs(RowIdExample().carts) == {(1, 1)}
    ensures CartListByRowIds(RowIdExample(), 1) == [Entry(Key("Sugar", "g"), 3)]
  {
    var db := RowIdExample();
    var rows := db.recipeIngredients;
    assert db.carts.rows[0] in db.carts.rows;
    assert CartRowIds(db.carts, 1) == {7};
    assert rows[1..] == [rows[1]];
    assert rows[1..][1..] == [];
    assert Group(rows[1..], db.ingredients, {7}) == [Entry(Key("Sugar", "g"), 3)];
  }
}
