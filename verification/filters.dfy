/** The query-string filters: the boolean coercion behind `is_favorited` and
    `is_in_shopping_cart` (backend/api/filters.py, with an older copy in
    backend/recipes/filters.py), the recipe filters it drives, and the ingredient
    name prefix filters of the two ingredient listings. A queryset is the
    sequence of rows it yields, in order. */
module Filters {

  import opened Common
  import Text
  import Relation
  import Schema

  // ---------------------------------------------------------------------------
  // bool_coerce

  /** `BOOL_CHOICES`: each accepted spelling with the label it is shown under. */
  const BoolChoices: seq<(string, string)> :=
    [("1", "True"), ("True", "True"), ("true", "True"),
     ("0", "False"), ("False", "False"), ("false", "False")]

  /** The spellings of a slice of the choices, in order. */
  function Spellings(choices: seq<(string, string)>): (r: seq<string>)
    ensures |r| == |choices|
    ensures forall i :: 0 <= i < |choices| ==> r[i] == choices[i].0
  {
    if |choices| == 0 then [] else [choices[0].0] + Spellings(choices[1..])
  }

  /** `BOOL_MAPPINGS`: the first three choices spell true, the last three false. */
  function BoolMappings(b: bool): seq<string>
  {
    if b then Spellings(BoolChoices[..3]) else Spellings(BoolChoices[3..])
  }

  datatype CoerceError = ValueError

  /** `bool_coerce`: exactly three spellings mean true, exactly three mean false,
      and every other string is refused. */
  function BoolCoerce(value: string): (r: Result<bool, CoerceError>)
    ensures r == Ok(true) <==> value in {"1", "True", "true"}
    ensures r == Ok(false) <==> value in {"0", "False", "false"}
    ensures r.Err? <==> value !in {"1", "True", "true", "0", "False", "false"}
  {
    assert BoolMappings(true) == ["1", "True", "true"];
    assert BoolMappings(false) == ["0", "False", "false"];
    if value in BoolMappings(true) then Ok(true)
    else if value in BoolMappings(false) then Ok(false)
    else Err(ValueError)
  }

  /** Every choice the filter offers coerces to the boolean its label names. */
  lemma CoerceAgreesWithLabels()
    ensures forall i :: 0 <= i < |BoolChoices| ==>
              BoolCoerce(BoolChoices[i].0) == Ok(BoolChoices[i].1 == "True")
  {
  }

  // ---------------------------------------------------------------------------
  // Recipe filters

  /** The recipes of `qs` whose membership in `actor`'s relation `t` is `want`, in order. */
  function KeepRelated(qs: seq<nat>, t: Relation.Table, actor: nat, want: bool): (r: seq<nat>)
    ensures forall x :: x in r <==> x in qs && (Relation.Related(t, actor, x) <==> want)
    ensures |r| <= |qs|
  {
    if |qs| == 0 then []
    else if Relation.Related(t, actor, qs[0]) == want then [qs[0]] + KeepRelated(qs[1..], t, actor, want)
    else KeepRelated(qs[1..], t, actor, want)
  }

  /** The two values of the filter split the queryset between them, row for row. */
  lemma {:induction false} KeepRelatedPartition(qs: seq<nat>, t: Relation.Table, actor: nat)
    ensures |KeepRelated(qs, t, actor, true)| + |KeepRelated(qs, t, actor, false)| == |qs|
  {
    if |qs| > 0 {
      KeepRelatedPartition(qs[1..], t, actor);
    }
  }

  /** The body shared by `filter_is_favorited` and `filter_is_in_shopping_cart`:
      an anonymous requester gets the queryset back; otherwise `true` keeps the
      recipes in the requester's relation and `false` keeps the others. */
  function FilterRelated(qs: seq<nat>, requester: Requester, value: bool, t: Relation.Table)
    : (r: seq<nat>)
    ensures requester.Anonymous? ==> r == qs
    ensures requester.User? ==>
              forall x :: x in r <==> x in qs && (Relation.Related(t, requester.id, x) <==> value)
    ensures forall x :: x in r ==> x in qs
  {
    match requester
    case Anonymous => qs
    case User(id) => KeepRelated(qs, t, id, value)
  }

  function FilterIsFavorited(qs: seq<nat>, requester: Requester, value: bool, db: Schema.Db)
    : (r: seq<nat>)
    ensures requester.Anonymous? ==> r == qs
    ensures requester.User? ==>
              forall x :: x in r <==> x in qs && (Relation.Related(db.favorites, requester.id, x) <==> value)
  {
    FilterRelated(qs, requester, value, db.favorites)
  }

  function FilterIsInShoppingCart(qs: seq<nat>, requester: Requester, value: bool, db: Schema.Db)
    : (r: seq<nat>)
    ensures requester.Anonymous? ==> r == qs
    ensures requester.User? ==>
              forall x :: x in r <==> x in qs && (Relation.Related(db.carts, requester.id, x) <==> value)
  {
    FilterRelated(qs, requester, value, db.carts)
  }

  /** For a signed-in requester, `true` and `false` select complementary parts of
      the queryset: no recipe in both, every recipe in one, and the sizes add up. */
  lemma FilterValuesComplement(qs: seq<nat>, user: nat, t: Relation.Table)
    ensures var yes := FilterRelated(qs, User(user), true, t);
            var no := FilterRelated(qs, User(user), false, t);
            && (forall x :: x in qs ==> (x in yes <==> x !in no))
            && (forall x :: x in yes || x in no ==> x in qs)
            && |yes| + |no| == |qs|
  {
    KeepRelatedPartition(qs, t, user);
  }

  // ---------------------------------------------------------------------------
  // Ingredient name prefix filters

  predicate NameMatches(i: Schema.Ingredient, prefix: string, ignoreCase: bool)
  {
    if ignoreCase then Text.IStartsWith(i.name, prefix) else Text.StartsWith(i.name, prefix)
  }

  /** The catalogue entries whose name starts with `prefix`, in order. */
  function KeepPrefixed(catalog: seq<Schema.Ingredient>, prefix: string, ignoreCase: bool)
    : (r: seq<Schema.Ingredient>)
    ensures forall i :: i in r <==> i in catalog && NameMatches(i, prefix, ignoreCase)
    ensures |r| <= |catalog|
  {
    if |catalog| == 0 then []
    else if NameMatches(catalog[0], prefix, ignoreCase) then
      [catalog[0]] + KeepPrefixed(catalog[1..], prefix, ignoreCase)
    else KeepPrefixed(catalog[1..], prefix, ignoreCase)
  }

  /** The empty prefix keeps the whole catalogue, in its order. */
  lemma {:induction false} EmptyPrefixKeepsAll(catalog: seq<Schema.Ingredient>, ignoreCase: bool)
    ensures KeepPrefixed(catalog, "", ignoreCase) == catalog
  {
    if |catalog| > 0 {
      Text.EmptyPrefix(catalog[0].name);
      EmptyPrefixKeepsAll(catalog[1..], ignoreCase);
    }
  }

  /** `IngredientViewSet.get_queryset` of backend/api/views.py: `name__istartswith`
      on the `name` parameter, which defaults to "". */
  function ListIngredients(catalog: seq<Schema.Ingredient>, name: Option<string>)
    : (r: seq<Schema.Ingredient>)
    ensures name.Some? ==> forall i :: i in r <==> i in catalog && Text.IStartsWith(i.name, name.value)
    ensures name.None? ==> r == catalog
  {
    EmptyPrefixKeepsAll(catalog, true);
    KeepPrefixed(catalog, if name.Some? then name.value else "", true)
  }

  /** The older `IngredientViewSet.get_queryset` of backend/recipes/views.py: the
      same listing with the case-sensitive `name__startswith`. */
  function ListIngredientsCaseSensitive(catalog: seq<Schema.Ingredient>, name: Option<string>)
    : (r: seq<Schema.Ingredient>)
    ensures name.Some? ==> forall i :: i in r <==> i in catalog && Text.StartsWith(i.name, name.value)
    ensures name.None? ==> r == catalog
  {
    EmptyPrefixKeepsAll(catalog, false);
    KeepPrefixed(catalog, if name.Some? then name.value else "", false)
  }

  /** Whatever the parameter, the case-sensitive listing keeps no entry the
      case-insensitive one drops. */
  lemma CaseSensitiveListingNarrower(catalog: seq<Schema.Ingredient>, name: Option<string>)
    ensures forall i :: i in ListIngredientsCaseSensitive(catalog, name) ==> i in ListIngredients(catalog, name)
  {
    if name.Some? {
      forall i | i in ListIngredientsCaseSensitive(catalog, name)
        ensures i in ListIngredients(catalog, name)
      {
        Text.StartsWithImpliesIStartsWith(i.name, name.value);
      }
    }
  }

  /** The two listings differ: a lower-case prefix finds a capitalised name only
      in the case-insensitive one. */
  lemma ListingsDifferOnCase()
    ensures ListIngredients([Schema.Ingredient("Salt", "g")], Some("s")) == [Schema.Ingredient("Salt", "g")]
    ensures ListIngredientsCaseSensitive([Schema.Ingredient("Salt", "g")], Some("s")) == []
  {
    assert Text.Lower("s") == "s";
    assert Text.Lower("Salt")[..1] == "s";
  }

  /** `IngredientFilter`: a `CharFilter` with `istartswith`, skipped when the
      parameter is absent or empty. */
  function IngredientFilter(catalog: seq<Schema.Ingredient>, name: Option<string>)
    : (r: seq<Schema.Ingredient>)
    ensures name.None? || name == Some("") ==> r == catalog
    ensures name.Some? && name.value != "" ==>
              forall i :: i in r <==> i in catalog && Text.IStartsWith(i.name, name.value)
  {
    if name.None? || name.value == "" then catalog
    else KeepPrefixed(catalog, name.value, true)
  }

  /** The filter set and the hand-written listing of backend/api/views.py select
      the same entries in the same order, the empty parameter included. */
  lemma IngredientFilterAgreesWithListing(catalog: seq<Schema.Ingredient>, name: Option<string>)
    ensures IngredientFilter(catalog, name) == ListIngredients(catalog, name)
  {
    if name == Some("") {
      EmptyPrefixKeepsAll(catalog, true);
    }
  }
}
