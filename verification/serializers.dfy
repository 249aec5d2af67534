/** The write path of `RecipeSerializer` in backend/api/serializers.py: the
    field validators, `validate`, `_create_ingredients`, `create` and `update`,
    and the `is_subscribed` field of `UserSerializer`. Each operation takes the
    database and gives back the new database with the outcome. */
module Serializers {

  import opened Common
  import Relation
  import Schema
  import Text

  /** One element of the request's `ingredients` list: a catalogue id and an amount. */
  datatype IngredientInput = IngredientInput(id: int, amount: int)

  /** The writable fields of a recipe request. `image` is what the image field
      produced; `ingredients` is `None` when the key is absent. */
  datatype RecipeInput = RecipeInput(name: string, text: string, cookingTime: int, image: string,
                                     ingredients: Option<seq<IngredientInput>>)

  /** The validation errors the serializer can raise. The bounds on `name`,
      `cooking_time` and `amount` and the refusal of blank text come from the
      model fields (DRF's `max_length`, `max_value` and `allow_blank=False`);
      the rest from the serializer's own checks. */
  datatype FieldError =
    | NameBlank
    | NameTooLong
    | TextBlank
    | CookingTimeBelowOne
    | CookingTimeTooLarge
    | AmountBelowOne
    | AmountTooLarge
    | IngredientsRequired
    | IngredientsEmpty
    | IngredientsRepeat
    | IngredientMissing

  /** The outcome of a write: the recipe's id, or why it was refused. */
  datatype Failure = Invalid(errors: set<FieldError>) | RecipeNotFound

  // ---------------------------------------------------------------------------
  // Field validation

  /** An `amount`: the `max_value` of its PositiveIntegerField, then
      `validate_amount`, which refuses anything below 1. */
  function ValidateAmount(amount: int): (r: Result<nat, FieldError>)
    ensures r.Ok? <==> 1 <= amount <= Schema.PositiveIntegerMax
    ensures r.Ok? ==> r.value == amount
    ensures r == Err(AmountTooLarge) <==> amount > Schema.PositiveIntegerMax
    ensures r == Err(AmountBelowOne) <==> amount < 1
  {
    if amount > Schema.PositiveIntegerMax then Err(AmountTooLarge)
    else if amount < 1 then Err(AmountBelowOne)
    else Ok(amount)
  }

  /** A `cooking_time`: the `max_value` of its PositiveIntegerField, then
      `validate_cooking_time`, which refuses anything below 1. */
  function ValidateCookingTime(cookingTime: int): (r: Result<nat, FieldError>)
    ensures r.Ok? <==> 1 <= cookingTime <= Schema.PositiveIntegerMax
    ensures r.Ok? ==> r.value == cookingTime
    ensures r == Err(CookingTimeTooLarge) <==> cookingTime > Schema.PositiveIntegerMax
    ensures r == Err(CookingTimeBelowOne) <==> cookingTime < 1
  {
    if cookingTime > Schema.PositiveIntegerMax then Err(CookingTimeTooLarge)
    else if cookingTime < 1 then Err(CookingTimeBelowOne)
    else Ok(cookingTime)
  }

  predicate SomeAmountBelowOne(ings: seq<IngredientInput>)
  {
    exists i :: 0 <= i < |ings| && ings[i].amount < 1
  }

  predicate SomeAmountTooLarge(ings: seq<IngredientInput>)
  {
    exists i :: 0 <= i < |ings| && ings[i].amount > Schema.PositiveIntegerMax
  }

  /** The errors of the listed amounts, each element validated on its own. */
  function AmountErrors(ings: seq<IngredientInput>): (errs: set<FieldError>)
    ensures errs <= {AmountBelowOne, AmountTooLarge}
    ensures AmountBelowOne in errs <==> SomeAmountBelowOne(ings)
    ensures AmountTooLarge in errs <==> SomeAmountTooLarge(ings)
  {
    if |ings| == 0 then {}
    else
      var rest := ings[1..];
      assert forall i :: 0 <= i < |rest| ==> rest[i] == ings[i + 1];
      (match ValidateAmount(ings[0].amount) case Ok(_) => {} case Err(e) => {e}) + AmountErrors(rest)
  }

  /** A character field as DRF cleans it: surrounding whitespace is removed,
      and a value left empty is refused. */
  function CleanText(value: string, blank: FieldError): (r: Result<string, FieldError>)
    ensures r.Ok? <==> !Text.AllSpace(value)
    ensures r.Ok? ==> r.value == Text.Trim(value) && |r.value| > 0
    ensures r.Err? ==> r.error == blank
  {
    Text.TrimEmptyIffAllSpace(value);
    var t := Text.Trim(value);
    if t == [] then Err(blank) else Ok(t)
  }

  /** Whether the field-level pass reports error `e`: the name and text are
      cleaned, and the name's length is measured after trimming; every field
      is checked on its own. */
  predicate Reports(input: RecipeInput, e: FieldError)
  {
    match e
    case NameBlank => CleanText(input.name, NameBlank).Err?
    case NameTooLong =>
      var name := CleanText(input.name, NameBlank);
      name.Ok? && |name.value| > Schema.RecipeNameMaxLength
    case TextBlank => CleanText(input.text, TextBlank).Err?
    case CookingTimeBelowOne => ValidateCookingTime(input.cookingTime) == Err(e)
    case CookingTimeTooLarge => ValidateCookingTime(input.cookingTime) == Err(e)
    case AmountBelowOne => input.ingredients.Some? && e in AmountErrors(input.ingredients.value)
    case AmountTooLarge => input.ingredients.Some? && e in AmountErrors(input.ingredients.value)
    case _ => false
  }

  lemma ReportsName(input: RecipeInput)
    ensures Reports(input, NameBlank) <==> Text.AllSpace(input.name)
    ensures Reports(input, NameTooLong) <==> |Text.Trim(input.name)| > Schema.RecipeNameMaxLength
  {
  }

  lemma ReportsText(input: RecipeInput)
    ensures Reports(input, TextBlank) <==> Text.AllSpace(input.text)
  {
  }

  lemma ReportsCookingTime(input: RecipeInput)
    ensures Reports(input, CookingTimeBelowOne) <==> input.cookingTime < 1
    ensures Reports(input, CookingTimeTooLarge) <==> input.cookingTime > Schema.PositiveIntegerMax
  {
  }

  lemma ReportsAmounts(input: RecipeInput)
    ensures Reports(input, AmountBelowOne) <==> input.ingredients.Some? && SomeAmountBelowOne(input.ingredients.value)
    ensures Reports(input, AmountTooLarge) <==> input.ingredients.Some? && SomeAmountTooLarge(input.ingredients.value)
  {
  }

  /** The errors of the field-level pass, which runs before `validate`: every
      failing field reports, not only the first. */
  function FieldErrors(input: RecipeInput): (errs: set<FieldError>)
    ensures NameBlank in errs <==> Text.AllSpace(input.name)
    ensures NameTooLong in errs <==> |Text.Trim(input.name)| > Schema.RecipeNameMaxLength
    ensures TextBlank in errs <==> Text.AllSpace(input.text)
    ensures CookingTimeBelowOne in errs <==> input.cookingTime < 1
    ensures CookingTimeTooLarge in errs <==> input.cookingTime > Schema.PositiveIntegerMax
    ensures AmountBelowOne in errs <==> input.ingredients.Some? && SomeAmountBelowOne(input.ingredients.value)
    ensures AmountTooLarge in errs <==> input.ingredients.Some? && SomeAmountTooLarge(input.ingredients.value)
    ensures errs <= {NameBlank, NameTooLong, TextBlank, CookingTimeBelowOne, CookingTimeTooLarge, AmountBelowOne, AmountTooLarge}
  {
    var kinds := {NameBlank, NameTooLong, TextBlank, CookingTimeBelowOne, CookingTimeTooLarge,
                  AmountBelowOne, AmountTooLarge};
    ReportsName(input);
    ReportsText(input);
    ReportsCookingTime(input);
    ReportsAmounts(input);
    set e | e in kinds && Reports(input, e)
  }

  /** The field-level pass is clean exactly when every field is within its bounds. */
  lemma NoFieldErrors(input: RecipeInput)
    ensures FieldErrors(input) == {} <==>
              && !Text.AllSpace(input.name) && |Text.Trim(input.name)| <= Schema.RecipeNameMaxLength
              && !Text.AllSpace(input.text)
              && 1 <= input.cookingTime <= Schema.PositiveIntegerMax
              && (input.ingredients.Some? ==>
                    forall i :: 0 <= i < |input.ingredients.value| ==>
                      1 <= input.ingredients.value[i].amount <= Schema.PositiveIntegerMax)
  {
    var errs := FieldErrors(input);
    if errs != {} {
      var e :| e in errs;
    }
  }

  /** Field validation followed by `validate`: the ingredients list must be
      present and non-empty. The result is the validated list. */
  function Validate(input: RecipeInput): (r: Result<seq<IngredientInput>, set<FieldError>>)
    ensures r.Ok? <==>
              && !Text.AllSpace(input.name) && |Text.Trim(input.name)| <= Schema.RecipeNameMaxLength
              && !Text.AllSpace(input.text)
              && 1 <= input.cookingTime <= Schema.PositiveIntegerMax
              && input.ingredients.Some? && |input.ingredients.value| > 0
              && forall i :: 0 <= i < |input.ingredients.value| ==>
                   1 <= input.ingredients.value[i].amount <= Schema.PositiveIntegerMax
    ensures r.Ok? ==> input.ingredients == Some(r.value)
    ensures r.Err? ==> r.error != {}
    ensures r.Err? && FieldErrors(input) == {} && input.ingredients.None? ==> r.error == {IngredientsRequired}
    ensures r.Err? && FieldErrors(input) == {} && input.ingredients.Some? ==> r.error == {IngredientsEmpty}
  {
    NoFieldErrors(input);
    var errs := FieldErrors(input);
    if errs != {} then Err(errs)
    else if input.ingredients.None? then Err({IngredientsRequired})
    else if |input.ingredients.value| == 0 then Err({IngredientsEmpty})
    else Ok(input.ingredients.value)
  }

  // ---------------------------------------------------------------------------
  // _create_ingredients

  function Ids(ings: seq<IngredientInput>): (ids: seq<int>)
    ensures |ids| == |ings|
    ensures forall i :: 0 <= i < |ings| ==> ids[i] == ings[i].id
  {
    if |ings| == 0 then [] else [ings[0].id] + Ids(ings[1..])
  }

  function ToSet(s: seq<int>): set<int>
  {
    set x | x in s
  }

  predicate Distinct(s: seq<int>)
  {
    forall i, j :: 0 <= i < j < |s| ==> s[i] != s[j]
  }

  lemma {:induction false} ToSetNoLarger(s: seq<int>)
    ensures |ToSet(s)| <= |s|
  {
    if |s| > 0 {
      ToSetNoLarger(s[1..]);
      assert ToSet(s) == {s[0]} + ToSet(s[1..]);
    }
  }

  /** The check `len(ids) != len(set(ids))` detects exactly the repeated ids. */
  lemma {:induction false} DistinctIffSetSize(s: seq<int>)
    ensures Distinct(s) <==> |ToSet(s)| == |s|
  {
    if |s| > 0 {
      var t := s[1..];
      DistinctIffSetSize(t);
      assert ToSet(s) == {s[0]} + ToSet(t);
      if s[0] in t {
        ToSetNoLarger(t);
        var j :| 0 <= j < |t| && t[j] == s[0];
        assert s[0] == s[j + 1];
      } else {
        assert ToSet(s) - {s[0]} == ToSet(t);
        if Distinct(t) {
          forall i, j | 0 <= i < j < |s| ensures s[i] != s[j] {
            if i > 0 {
              assert s[i] == t[i - 1] && s[j] == t[j - 1];
            }
          }
        } else {
          var i, j :| 0 <= i < j < |t| && t[i] == t[j];
          assert s[i + 1] == s[j + 1];
        }
      }
    }
  }

  /** The ids of `ids` that name catalogue entries: what
      `Ingredient.objects.filter(id__in=ids)` finds. */
  function Existing(catalog: map<nat, Schema.Ingredient>, ids: seq<int>): set<int>
  {
    set x | x in ids && x >= 0 && x as nat in catalog
  }

  predicate AllExist(catalog: map<nat, Schema.Ingredient>, ids: seq<int>)
  {
    forall i :: 0 <= i < |ids| ==> ids[i] >= 0 && ids[i] as nat in catalog
  }

  /** For distinct ids, comparing the number found with the number asked for
      detects exactly a missing id. */
  lemma ExistingCountIffAllExist(catalog: map<nat, Schema.Ingredient>, ids: seq<int>)
    requires Distinct(ids)
    ensures |Existing(catalog, ids)| == |ids| <==> AllExist(catalog, ids)
  {
    DistinctIffSetSize(ids);
    var found, all := Existing(catalog, ids), ToSet(ids);
    assert found <= all;
    if !AllExist(catalog, ids) {
      var i :| 0 <= i < |ids| && !(ids[i] >= 0 && ids[i] as nat in catalog);
      assert ids[i] in all - found;
      assert |all| == |found| + |all - found| by {
        assert all == found + (all - found);
      }
    } else {
      assert found == all;
    }
  }

  /** One new row per listed ingredient, in input order. */
  function NewRows(recipe: nat, ings: seq<IngredientInput>): (rows: seq<Schema.RecipeIngredient>)
    requires forall i :: 0 <= i < |ings| ==> ings[i].id >= 0 && ings[i].amount >= 1
    ensures |rows| == |ings|
    ensures forall i :: 0 <= i < |ings| ==>
              rows[i] == Schema.RecipeIngredient(recipe, ings[i].id as nat, ings[i].amount as nat)
  {
    if |ings| == 0 then []
    else [Schema.RecipeIngredient(recipe, ings[0].id as nat, ings[0].amount as nat)] + NewRows(recipe, ings[1..])
  }

  /** `_create_ingredients`: refuses repeated ids, then ids missing from the
      catalogue, and otherwise gives the rows to bulk-create. */
  function CreateIngredients(catalog: map<nat, Schema.Ingredient>, recipe: nat, ings: seq<IngredientInput>)
    : (r: Result<seq<Schema.RecipeIngredient>, FieldError>)
    requires forall i :: 0 <= i < |ings| ==> ings[i].amount >= 1
    ensures r == Err(IngredientsRepeat) <==> !Distinct(Ids(ings))
    ensures r == Err(IngredientMissing) <==> Distinct(Ids(ings)) && !AllExist(catalog, Ids(ings))
    ensures r.Ok? <==> Distinct(Ids(ings)) && AllExist(catalog, Ids(ings))
    ensures r.Ok? ==> |r.value| == |ings|
    ensures r.Ok? ==> forall i :: 0 <= i < |ings| ==>
              && ings[i].id >= 0 && ings[i].id as nat in catalog
              && r.value[i] == Schema.RecipeIngredient(recipe, ings[i].id as nat, ings[i].amount as nat)
    ensures r.Ok? ==> r.value == NewRows(recipe, ings)
  {
    var ids := Ids(ings);
    DistinctIffSetSize(ids);
    if |ids| != |ToSet(ids)| then Err(IngredientsRepeat)
    else
      ExistingCountIffAllExist(catalog, ids);
      if |Existing(catalog, ids)| != |ids| then Err(IngredientMissing)
      else Ok(NewRows(recipe, ings))
  }

  // ---------------------------------------------------------------------------
  // create and update

  /** The recipe row the validated fields give: name and text stored trimmed. */
  function RecipeOf(author: nat, input: RecipeInput): Schema.Recipe
    requires input.cookingTime >= 1
  {
    Schema.Recipe(author, Text.Trim(input.name), Some(input.image), Text.Trim(input.text), input.cookingTime as nat)
  }

  /** A validated request stores a non-empty trimmed name that fits its column,
      a non-empty trimmed text and a cooking time within the column's range. */
  lemma ValidatedRecipeFits(author: nat, input: RecipeInput)
    requires Validate(input).Ok?
    ensures var r := RecipeOf(author, input);
            && 0 < |r.name| <= Schema.RecipeNameMaxLength
            && !Text.IsSpace(r.name[0]) && !Text.IsSpace(r.name[|r.name| - 1])
            && 0 < |r.text| && !Text.IsSpace(r.text[0]) && !Text.IsSpace(r.text[|r.text| - 1])
            && 1 <= r.cookingTime <= Schema.PositiveIntegerMax
  {
    Text.TrimEmptyIffAllSpace(input.name);
    Text.TrimEmptyIffAllSpace(input.text);
  }

  /** `create`: validation, then the recipe under the next id, then its
      ingredient rows; if those are refused the recipe is deleted again, so only
      the id sequence has moved. */
  function Create(db: Schema.Db, author: nat, input: RecipeInput): (res: (Schema.Db, Result<nat, Failure>))
    requires Schema.Consistent(db)
    ensures Validate(input).Err? ==> res == (db, Err(Invalid(Validate(input).error)))
    ensures res.1.Ok? <==>
              Validate(input).Ok? && Distinct(Ids(input.ingredients.value))
              && AllExist(db.ingredients, Ids(input.ingredients.value))
    ensures author in db.users ==> Schema.Consistent(res.0)
  {
    match Validate(input)
    case Err(errs) => (db, Err(Invalid(errs)))
    case Ok(ings) =>
      var id := db.nextRecipeId;
      var db1 := Schema.AddRecipe(db, RecipeOf(author, input));
      match CreateIngredients(db1.ingredients, id, ings)
      case Err(e) =>
        Schema.DeleteFreshRecipe(db, RecipeOf(author, input));
        (Schema.DeleteRecipe(db1, id), Err(Invalid({e})))
      case Ok(rows) =>
        AddedRecipeConsistent(db, author, input, rows);
        (db1.(recipeIngredients := db.recipeIngredients + rows), Ok(id))
  }

  /** A valid create whose ingredient list is refused: the recipe inserted
      first is deleted again, so only the id sequence has moved. */
  lemma CreateRefused(db: Schema.Db, author: nat, input: RecipeInput)
    requires Schema.Consistent(db) && Validate(input).Ok?
    requires !(Distinct(Ids(input.ingredients.value)) && AllExist(db.ingredients, Ids(input.ingredients.value)))
    ensures var res := Create(db, author, input);
            && res.0 == db.(nextRecipeId := db.nextRecipeId + 1)
            && res.1.Err? && res.1.error.Invalid? && res.1.error.errors <= {IngredientsRepeat, IngredientMissing}
  {
    var id := db.nextRecipeId;
    var db1 := Schema.AddRecipe(db, RecipeOf(author, input));
    var c := CreateIngredients(db1.ingredients, id, input.ingredients.value);
    Schema.DeleteFreshRecipe(db, RecipeOf(author, input));
    assert Create(db, author, input) == (Schema.DeleteRecipe(db1, id), Err(Invalid({c.error})));
  }

  /** An accepted create: the recipe gets the next id and exactly the new
      rows, and no other recipe's rows change. */
  lemma CreateAccepted(db: Schema.Db, author: nat, input: RecipeInput)
    requires Schema.Consistent(db) && Validate(input).Ok?
    requires Distinct(Ids(input.ingredients.value)) && AllExist(db.ingredients, Ids(input.ingredients.value))
    ensures var res := Create(db, author, input);
            var id := db.nextRecipeId;
            && res.1 == Ok(id) && id !in db.recipes
            && res.0.recipes == db.recipes[id := RecipeOf(author, input)]
            && Schema.IngredientsOf(res.0.recipeIngredients, id) == NewRows(id, input.ingredients.value)
            && (forall k :: k != id ==>
                  Schema.IngredientsOf(res.0.recipeIngredients, k) == Schema.IngredientsOf(db.recipeIngredients, k))
  {
    var id := db.nextRecipeId;
    var ings := input.ingredients.value;
    var db1 := Schema.AddRecipe(db, RecipeOf(author, input));
    var rows := NewRows(id, ings);
    assert CreateIngredients(db1.ingredients, id, ings) == Ok(rows);
    Schema.NextIdUnreferenced(db);
    CreatedRows(db, id, ings, rows);
    assert Create(db, author, input) == (db1.(recipeIngredients := db.recipeIngredients + rows), Ok(id));
  }

  /** The rows appended for a new recipe are that recipe's rows, and no other
      recipe's rows change. */
  lemma CreatedRows(db: Schema.Db, id: nat, ings: seq<IngredientInput>, rows: seq<Schema.RecipeIngredient>)
    requires Schema.Unreferenced(db, id)
    requires forall i :: 0 <= i < |ings| ==> ings[i].id >= 0 && ings[i].amount >= 1
    requires rows == NewRows(id, ings)
    ensures Schema.IngredientsOf(db.recipeIngredients + rows, id) == rows
    ensures forall k :: k != id ==>
              Schema.IngredientsOf(db.recipeIngredients + rows, k) == Schema.IngredientsOf(db.recipeIngredients, k)
  {
    Schema.IngredientsOfConcat(db.recipeIngredients, rows, id);
    NoneOf(db.recipeIngredients, id);
    AllOf(rows, id);
    forall k | k != id
      ensures Schema.IngredientsOf(db.recipeIngredients + rows, k) == Schema.IngredientsOf(db.recipeIngredients, k)
    {
      Schema.IngredientsOfConcat(db.recipeIngredients, rows, k);
      NoneOf(rows, k);
    }
  }

  lemma {:induction false} NoneOf(rows: seq<Schema.RecipeIngredient>, k: nat)
    requires forall ri :: ri in rows ==> ri.recipe != k
    ensures Schema.IngredientsOf(rows, k) == []
  {
    if |rows| > 0 {
      assert rows[0] in rows;
      NoneOf(rows[1..], k);
    }
  }

  lemma {:induction false} AllOf(rows: seq<Schema.RecipeIngredient>, k: nat)
    requires forall ri :: ri in rows ==> ri.recipe == k
    ensures Schema.IngredientsOf(rows, k) == rows
  {
    if |rows| > 0 {
      assert rows[0] in rows;
      AllOf(rows[1..], k);
      assert rows == [rows[0]] + rows[1..];
    }
  }

  lemma AddedRecipeConsistent(db: Schema.Db, author: nat, input: RecipeInput, rows: seq<Schema.RecipeIngredient>)
    requires Schema.Consistent(db) && Validate(input).Ok?
    requires forall ri :: ri in rows ==> ri.recipe == db.nextRecipeId && ri.ingredient in db.ingredients
    ensures author in db.users ==>
              Schema.Consistent(Schema.AddRecipe(db, RecipeOf(author, input)).(recipeIngredients := db.recipeIngredients + rows))
  {
    if author in db.users {
      var db2 := Schema.AddRecipe(db, RecipeOf(author, input)).(recipeIngredients := db.recipeIngredients + rows);
      assert Schema.FieldsFit(db2);
      assert Schema.References(db2);
    }
  }

  /** `update` on recipe `id`: validation, then the recipe's old ingredient rows
      are deleted, then the new list is checked and created, then the other
      fields are written. A refused list leaves the old rows deleted and the
      other fields as they were. */
  function Update(db: Schema.Db, id: nat, input: RecipeInput): (res: (Schema.Db, Result<nat, Failure>))
    requires Schema.Consistent(db)
    ensures id !in db.recipes ==> res == (db, Err(RecipeNotFound))
    ensures id in db.recipes && Validate(input).Err? ==> res == (db, Err(Invalid(Validate(input).error)))
    ensures id in db.recipes && Validate(input).Ok? ==> res == ReplaceIngredients(db, id, input)
    ensures res.1.Ok? <==>
              id in db.recipes && Validate(input).Ok? && Distinct(Ids(input.ingredients.value))
              && AllExist(db.ingredients, Ids(input.ingredients.value))
    ensures Schema.Consistent(res.0)
  {
    if id !in db.recipes then (db, Err(RecipeNotFound))
    else if Validate(input).Err? then (db, Err(Invalid(Validate(input).error)))
    else ReplaceIngredients(db, id, input)
  }

  /** The part of `update` after validation: the recipe's old rows are deleted,
      the new list is checked and created, and the other fields are written. A
      refused list leaves the old rows deleted and the other fields as they were. */
  function ReplaceIngredients(db: Schema.Db, id: nat, input: RecipeInput): (res: (Schema.Db, Result<nat, Failure>))
    requires Schema.Consistent(db) && id in db.recipes && Validate(input).Ok?
    ensures res.1.Ok? <==>
              Distinct(Ids(input.ingredients.value)) && AllExist(db.ingredients, Ids(input.ingredients.value))
    ensures Schema.Consistent(res.0)
  {
    match CreateIngredients(db.ingredients, id, input.ingredients.value)
    case Err(e) => (DropIngredients(db, id), Err(Invalid({e})))
    case Ok(rows) => (Rewrite(db, id, input, rows), Ok(id))
  }

  /** An update whose ingredient list is refused: the recipe keeps its old
      fields but has no rows left, because the old rows were deleted first; every
      other recipe keeps its fields and rows. */
  lemma ReplaceIngredientsRefused(db: Schema.Db, id: nat, input: RecipeInput)
    requires Schema.Consistent(db) && id in db.recipes && Validate(input).Ok?
    requires !(Distinct(Ids(input.ingredients.value)) && AllExist(db.ingredients, Ids(input.ingredients.value)))
    ensures var res := ReplaceIngredients(db, id, input);
            && res.0.recipes == db.recipes
            && Schema.IngredientsOf(res.0.recipeIngredients, id) == []
            && (forall k :: k != id ==>
                  Schema.IngredientsOf(res.0.recipeIngredients, k) == Schema.IngredientsOf(db.recipeIngredients, k))
            && res.1.Err? && res.1.error.Invalid? && res.1.error.errors <= {IngredientsRepeat, IngredientMissing}
  {
    var c := CreateIngredients(db.ingredients, id, input.ingredients.value);
    var db1 := DropIngredients(db, id);
    assert ReplaceIngredients(db, id, input) == (db1, Err(Invalid({c.error})));
  }

  /** An update whose ingredient list is accepted: the recipe gets exactly the
      new rows and the new fields, under the same author; every other recipe
      keeps its fields and rows. */
  lemma ReplaceIngredientsAccepted(db: Schema.Db, id: nat, input: RecipeInput)
    requires Schema.Consistent(db) && id in db.recipes && Validate(input).Ok?
    requires Distinct(Ids(input.ingredients.value)) && AllExist(db.ingredients, Ids(input.ingredients.value))
    ensures var res := ReplaceIngredients(db, id, input);
            && res.1 == Ok(id)
            && res.0.recipes == db.recipes[id := RecipeOf(db.recipes[id].author, input)]
            && Schema.IngredientsOf(res.0.recipeIngredients, id) == NewRows(id, input.ingredients.value)
            && (forall k :: k != id ==>
                  Schema.IngredientsOf(res.0.recipeIngredients, k) == Schema.IngredientsOf(db.recipeIngredients, k))
  {
    var ings := input.ingredients.value;
    var rows := NewRows(id, ings);
    assert CreateIngredients(db.ingredients, id, ings) == Ok(rows);
    var db2 := Rewrite(db, id, input, rows);
    assert ReplaceIngredients(db, id, input) == (db2, Ok(id));
  }

  /** An accepted update: the old rows are deleted, then the new rows and the
      new fields are written. */
  function Rewrite(db: Schema.Db, id: nat, input: RecipeInput, rows: seq<Schema.RecipeIngredient>)
    : (db2: Schema.Db)
    requires Schema.Consistent(db) && id in db.recipes && Validate(input).Ok?
    requires AllExist(db.ingredients, Ids(input.ingredients.value))
    requires rows == NewRows(id, input.ingredients.value)
    ensures Schema.Consistent(db2)
    ensures db2.recipes == db.recipes[id := RecipeOf(db.recipes[id].author, input)]
    ensures Schema.IngredientsOf(db2.recipeIngredients, id) == rows
    ensures forall k :: k != id ==>
              Schema.IngredientsOf(db2.recipeIngredients, k) == Schema.IngredientsOf(db.recipeIngredients, k)
  {
    WriteRecipe(DropIngredients(db, id), id, input, rows)
  }

  /** `RecipeIngredient.objects.filter(recipe=recipe).delete()`. */
  function DropIngredients(db: Schema.Db, id: nat): (db1: Schema.Db)
    requires Schema.Consistent(db)
    ensures Schema.Consistent(db1)
    ensures db1 == db.(recipeIngredients := db1.recipeIngredients)
    ensures forall ri :: ri in db1.recipeIngredients <==> ri in db.recipeIngredients && ri.recipe != id
    ensures Schema.IngredientsOf(db1.recipeIngredients, id) == []
    ensures forall k :: k != id ==>
              Schema.IngredientsOf(db1.recipeIngredients, k) == Schema.IngredientsOf(db.recipeIngredients, k)
  {
    KeptRows(db.recipeIngredients, id);
    DroppedRowsConsistent(db, id);
    db.(recipeIngredients := Schema.IngredientRowsNotOf(db.recipeIngredients, {id}, {}))
  }

  /** The new rows go in and the recipe's other fields are written; the author stays. */
  function WriteRecipe(db1: Schema.Db, id: nat, input: RecipeInput, rows: seq<Schema.RecipeIngredient>)
    : (db2: Schema.Db)
    requires Schema.Consistent(db1) && id in db1.recipes && Validate(input).Ok?
    requires Schema.IngredientsOf(db1.recipeIngredients, id) == []
    requires AllExist(db1.ingredients, Ids(input.ingredients.value))
    requires rows == NewRows(id, input.ingredients.value)
    ensures Schema.Consistent(db2)
    ensures db2.recipes == db1.recipes[id := RecipeOf(db1.recipes[id].author, input)]
    ensures Schema.IngredientsOf(db2.recipeIngredients, id) == rows
    ensures forall k :: k != id ==>
              Schema.IngredientsOf(db2.recipeIngredients, k) == Schema.IngredientsOf(db1.recipeIngredients, k)
  {
    var ings := input.ingredients.value;
    ReplacedRows(db1.recipeIngredients, id, ings, rows);
    NewRowsMembers(id, ings, db1.ingredients);
    ReplacedConsistent(db1, id, input, rows);
    db1.(recipeIngredients := db1.recipeIngredients + rows,
         recipes := db1.recipes[id := RecipeOf(db1.recipes[id].author, input)])
  }

  lemma NewRowsMembers(recipe: nat, ings: seq<IngredientInput>, catalog: map<nat, Schema.Ingredient>)
    requires forall i :: 0 <= i < |ings| ==> ings[i].id >= 0 && ings[i].amount >= 1
    requires AllExist(catalog, Ids(ings))
    ensures forall ri :: ri in NewRows(recipe, ings) ==> ri.recipe == recipe && ri.ingredient in catalog
  {
    var rows := NewRows(recipe, ings);
    forall ri | ri in rows
      ensures ri.recipe == recipe && ri.ingredient in catalog
    {
      var i :| 0 <= i < |rows| && rows[i] == ri;
      assert Ids(ings)[i] == ings[i].id;
    }
  }

  lemma DroppedRowsConsistent(db: Schema.Db, id: nat)
    requires Schema.Consistent(db)
    ensures Schema.Consistent(db.(recipeIngredients := Schema.IngredientRowsNotOf(db.recipeIngredients, {id}, {})))
  {
  }

  lemma ReplacedConsistent(db: Schema.Db, id: nat, input: RecipeInput, rows: seq<Schema.RecipeIngredient>)
    requires Schema.Consistent(db) && id in db.recipes && Validate(input).Ok?
    requires forall ri :: ri in rows ==> ri.recipe == id && ri.ingredient in db.ingredients
    ensures Schema.Consistent(db.(recipeIngredients := db.recipeIngredients + rows,
                                  recipes := db.recipes[id := RecipeOf(db.recipes[id].author, input)]))
  {
  }

  /** Deleting the rows of recipe `id` leaves it none and keeps every other recipe's. */
  lemma {:induction false} KeptRows(rows: seq<Schema.RecipeIngredient>, id: nat)
    ensures Schema.IngredientsOf(Schema.IngredientRowsNotOf(rows, {id}, {}), id) == []
    ensures forall k :: k != id ==>
              Schema.IngredientsOf(Schema.IngredientRowsNotOf(rows, {id}, {}), k) == Schema.IngredientsOf(rows, k)
  {
    if |rows| > 0 {
      KeptRows(rows[1..], id);
    }
  }

  lemma ReplacedRows(kept: seq<Schema.RecipeIngredient>, id: nat, ings: seq<IngredientInput>,
                     rows: seq<Schema.RecipeIngredient>)
    requires Schema.IngredientsOf(kept, id) == []
    requires forall i :: 0 <= i < |ings| ==> ings[i].id >= 0 && ings[i].amount >= 1
    requires rows == NewRows(id, ings)
    ensures Schema.IngredientsOf(kept + rows, id) == rows
    ensures forall k :: k != id ==> Schema.IngredientsOf(kept + rows, k) == Schema.IngredientsOf(kept, k)
  {
    Schema.IngredientsOfConcat(kept, rows, id);
    AllOf(rows, id);
    forall k | k != id
      ensures Schema.IngredientsOf(kept + rows, k) == Schema.IngredientsOf(kept, k)
    {
      Schema.IngredientsOfConcat(kept, rows, k);
      NoneOf(rows, k);
    }
  }

  /** A list that repeats an id is refused, whatever else it holds. */
  lemma RepeatedIdRefused(db: Schema.Db, author: nat, input: RecipeInput)
    requires Schema.Consistent(db) && Validate(input).Ok?
    requires exists i, j :: 0 <= i < j < |input.ingredients.value|
               && input.ingredients.value[i].id == input.ingredients.value[j].id
    ensures Create(db, author, input).1 == Err(Invalid({IngredientsRepeat}))
  {
    var ings := input.ingredients.value;
    var i, j :| 0 <= i < j < |ings| && ings[i].id == ings[j].id;
    assert Ids(ings)[i] == Ids(ings)[j];
  }

  // ---------------------------------------------------------------------------
  // UserSerializer.get_is_subscribed

  /** `is_subscribed`: false without a request or for an anonymous requester;
      otherwise whether the requester follows `other`. */
  function IsSubscribed(request: Option<Requester>, other: nat, subs: Relation.Table): (b: bool)
    ensures request.None? || request == Some(Anonymous) ==> !b
    ensures request.Some? && request.value.User? ==> (b <==> Relation.Related(subs, request.value.id, other))
  {
    match request
    case None => false
    case Some(Anonymous) => false
    case Some(User(id)) => Relation.Related(subs, id, other)
  }
}
