# Foodgram backend core in Dafny

This project models the request-handling core of the Foodgram recipe service,
a Django REST backend. The database is one immutable value, `Schema.Db`. It
holds users, the ingredient catalogue, recipes, recipe-ingredient rows, the
three join tables (favorites, shopping carts and subscriptions), short links
and avatars. Every view, serializer step and filter is a pure function from
the database and the request to the new database and the response.

The modules follow the program's structure:

- `Common`: shared wrappers (`Option`, `Result`), the HTTP method, the requester and the responses.
- `Text`: Python's `str.startswith`, its case-insensitive variant, `str.split` and `str.join`, `str.strip`, code-point string order, and decimal rendering of integers.
- `Relation`: a join table with auto-increment row ids, and the get-or-create-then-branch toggle of `many2many_relation_action` in backend/core/decorators.py.
- `Schema`:
  - the models of backend/recipes/models.py and backend/shortlinks/models.py, with their length bounds, foreign keys and uniqueness constraints;
  - the database invariant `Consistent`;
  - the `on_delete=CASCADE` deletions.
- `ApiViews`: the `subscribe`, `favorite`, `shopping_cart` and `avatar` actions of backend/api/views.py.
- `ShoppingList`: the two `download_shopping_cart` views. Grouping by (name, unit) is checked against an independent reference sum. Rendering is checked through a split/join round trip.
- `Filters`: `bool_coerce`, the favorite and cart recipe filters, and the ingredient name prefix filters of the two ingredient listings.
- `DataUri`: `Base64ImageField.to_internal_value`, which splits a `data:` URL (RFC 2397, section 3) at `;base64,`.
- `Serializers`: the recipe field validators, `validate`, `_create_ingredients`, `create` and `update`, and `is_subscribed`.
- `ShortLinks`: `create_slug`, the `get_link` action and slug resolution.

Parameters stand in for what the code takes from outside:

- the requester's id;
- the random draws of `create_slug`, a sequence of alphabet indices;
- the image field behind the avatar serializer, a function from the decoded data to a stored name or an error message.

Views that read or write the database require `Schema.Consistent(db)`, which
the database's own constraints guarantee. They prove that they preserve it.

## Model

| member | source | states |
|---|---|---|
| Relation.GetOrCreate | backend/core/decorators.py:37 | A row is created exactly when the pair is absent. An existing row comes back with the table unchanged. A new row takes the next id and adds exactly that pair. |
| Relation.DeleteRemovesPair | backend/core/decorators.py:41 | Deleting the fetched row by primary key removes exactly its pair and keeps the table valid. |
| Relation.TargetKey | backend/core/decorators.py:26-28 | The target is the `pk` argument. `id` is used only when `pk` is absent. There is none when both are absent. |
| Relation.RelationAction | backend/core/decorators.py:21-61 | A response from the wrapped view is returned with the table untouched. Otherwise the toggle runs on the target key. A request with neither key is 404 with no change. |
| Relation.Toggle | backend/core/decorators.py:35-61 | An unknown target is 404 and the table is unchanged. The pairs never grow beyond the requested one. POST on an absent pair adds it and answers 201 with the target. POST on a present pair is 400 with the "exists" message and no change. DELETE on a present pair removes exactly it with 204. DELETE on an absent pair is 400 with the "missing" message: the rows are the same and only the id sequence moved. |
| Relation.ToggleToggled | backend/core/decorators.py:37-61 | For an existing target the outcome meets the four-case `Toggled` specification. In particular the pair set is unchanged after a DELETE of an absent pair. |
| Relation.PostThenDeleteRestores | backend/core/decorators.py:37-49 | POST then DELETE of an absent pair answers 201 then 204 and gives back the original rows. |
| Relation.DeleteThenPostRestores | backend/core/decorators.py:40-61 | DELETE then POST of a present pair answers 204 then 201 and restores the pair set. |
| Relation.RepeatedToggleRejected | backend/core/decorators.py:43-57 | Repeating the same request is always answered 400 and changes no pair. |
| ApiViews.Subscribe | backend/api/views.py:96-125 | The requester's own id is 400 "Cannot subscribe to yourself." before any lookup, with no change. An unknown user is 404 with no change. Otherwise the subscription table follows the toggle with the subscription messages. Nothing but that table changes, and consistency is kept. |
| ApiViews.SubscribeSetsIsSubscribed | backend/api/serializers.py:84-90 | After a subscribe request on another existing user, `is_subscribed` reports true exactly when the method was POST. |
| ApiViews.Favorite | backend/api/views.py:214-237 | An unknown recipe is 404 with no change. Otherwise the favorites follow the toggle with the favorite messages. Only the favorites change, and consistency is kept. |
| ApiViews.ShoppingCart | backend/api/views.py:246-273 | An unknown recipe is 404 with no change. Otherwise the cart follows the toggle with the cart messages. Only the cart changes, and consistency is kept. |
| ApiViews.FavoriteIsRelationAction | backend/core/decorators.py:10-65 | The hand-written favorite action equals the generic decorated toggle applied with `pk` and the same two messages. |
| ApiViews.FavoriteRoundTrip | backend/recipes/views.py:66-89 | For an absent favorite, POST answers 201 and a following DELETE answers 204, and the favorite pairs end as they began. |
| ApiViews.CartRepeatRefused | backend/recipes/views.py:97-124 | A second identical cart request on an existing recipe is 400 and changes no cart pair. |
| ApiViews.Avatar | backend/api/views.py:55-72 | DELETE answers 404 exactly when the user has no avatar row; otherwise the row is removed with 204. PUT first makes the row exist and it exists afterwards whatever happens. Missing data is 400 "This field is required.". A malformed data URL is a server error. An image the field refuses is 400 with the field's message. Only an accepted image gives 200, and the stored name is recorded. Other users' avatars are untouched and consistency is kept. |
| ApiViews.RefusedAvatarKeepsRow | backend/api/views.py:66-69 | A PUT without data from a user with no avatar is refused with 400 but leaves an empty avatar row behind. |
| ShoppingList.CartRecipes | backend/api/views.py:296-297 | The selected ids are exactly the recipes the user has in the cart. |
| ShoppingList.CartRowIdsCount | backend/recipes/views.py:136 | On a valid cart table, the user's cart-row ids are exactly as many as the recipes in their cart, because ids and (user, recipe) pairs are both unique. So the older view selects as many ids as the newer one. |
| ShoppingList.Group | backend/api/views.py:300-305 | The grouped list is sorted by name, then unit. Its keys are exactly the (name, unit) groups of the selected rows whose ingredient is catalogued. Each group's total equals the reference sum of that group's amounts. |
| ShoppingList.Aggregation | backend/api/views.py:296-305 | One entry per distinct group, no two for the same group, ordered by name, and each total the sum of its group's amounts. The list is empty exactly when no row is selected. |
| ShoppingList.RenderEmptyIff | backend/api/views.py:307-313 | The text is the empty-cart sentinel exactly when there are no entries. |
| ShoppingList.RenderLines | backend/api/views.py:309-313 | When names and units have no line break, splitting the text on "\n" gives back one `name: total (unit)` line per entry in order. So there is no trailing newline. |
| ShoppingList.DownloadShoppingCart | backend/api/views.py:295-313 | The text is the sentinel exactly when no ingredient row of a recipe in the cart names a catalogued ingredient. |
| ShoppingList.CartListIsCartIngredients | backend/api/views.py:296-301 | Every catalogued ingredient row of a recipe in the cart has its group in the list, and every group in the list comes from such a row. |
| ShoppingList.DownloadShoppingCartByRowIds | backend/recipes/views.py:131-152 | The older view, as written: the text is the sentinel exactly when no catalogued ingredient row belongs to a recipe whose id equals one of the user's cart-row ids. |
| ShoppingList.SaltAddsUp | backend/api/views.py:300-313 | Two cart recipes with 5 g and 3 g of salt render as the single line "Salt: 8 (g)". |
| ShoppingList.RowIdExampleCartList | backend/api/views.py:296-305 | For the example database the list holds the salt of the recipe in the cart. |
| ShoppingList.RowIdsListWrongRecipe | backend/recipes/views.py:136-144 | For the same database, keying on cart-row ids lists the sugar of a recipe not in the cart. |
| Text.NatToStringRoundTrip | backend/api/views.py:311 | The rendered total reads back as the number summed. |
| Text.JoinSplit | backend/api/serializers.py:23 | Joining the pieces of a split with the separator gives the string back. |
| Text.SplitJoin | backend/api/views.py:310 | Splitting a "\n"-join of pieces without line breaks gives the pieces back. |
| Text.SplitTwo | backend/api/serializers.py:23 | A string made of two marker-free parts around the marker splits into exactly those two parts. |
| Text.LastPieceLemma | backend/api/serializers.py:24 | The last piece of a split ends the string and follows the last occurrence of the separator. It is the whole string when the separator does not occur. |
| Text.TrimShape | backend/recipes/models.py:19-25 | A stored name or text is the submitted value with a run of whitespace removed before it and a run removed after it. |
| Text.TrimEmptyIffAllSpace | backend/recipes/models.py:19-25 | A value trims to nothing exactly when it is all whitespace. |
| Text.TrimIdempotent | backend/recipes/models.py:19-25 | Trimming a trimmed value changes nothing. |
| Text.StartsWithImpliesIStartsWith | backend/recipes/views.py:28 | A case-sensitive prefix match is also a case-insensitive one. |
| Filters.BoolCoerce | backend/api/filters.py:14-30 | "1", "True" and "true" give true. "0", "False" and "false" give false. Every other string is a ValueError, in both directions. |
| Filters.CoerceAgreesWithLabels | backend/recipes/filters.py:8-33 | Each of the six offered choices coerces to the boolean its label names. |
| Filters.KeepRelated | backend/api/filters.py:52-56 | Exactly the recipes of the queryset whose membership in the requester's relation matches the value are kept, and never more rows than given. |
| Filters.KeepRelatedPartition | backend/recipes/filters.py:53-57 | The true and false results together have as many rows as the queryset. |
| Filters.FilterRelated | backend/recipes/filters.py:49-67 | An anonymous requester gets the queryset back. Otherwise membership in the result is membership in the queryset and in the relation exactly as the value says. The result only narrows. |
| Filters.FilterIsFavorited | backend/api/filters.py:48-56 | The anonymous identity, or inclusion or complement of the requester's favorites. |
| Filters.FilterIsInShoppingCart | backend/api/filters.py:58-66 | The anonymous identity, or inclusion or complement of the requester's cart. |
| Filters.FilterValuesComplement | backend/api/filters.py:53-56 | For a signed-in requester, true and false select disjoint parts covering the queryset, with sizes adding up. |
| Filters.EmptyPrefixKeepsAll | backend/recipes/views.py:27-28 | The empty prefix keeps the whole catalogue in order, in both case modes. |
| Filters.ListIngredients | backend/api/views.py:155-157 | Exactly the entries whose name starts with the parameter, ignoring case. A missing parameter keeps everything. |
| Filters.ListIngredientsCaseSensitive | backend/recipes/views.py:26-28 | Exactly the entries whose name starts with the parameter, case-sensitively. A missing parameter keeps everything. |
| Filters.CaseSensitiveListingNarrower | backend/recipes/views.py:28 | The case-sensitive listing keeps nothing the case-insensitive one drops. |
| Filters.ListingsDifferOnCase | backend/api/views.py:157 | The prefix "s" finds "Salt" only in the case-insensitive listing. |
| Filters.IngredientFilter | backend/api/filters.py:69-74 | A missing or empty parameter keeps the catalogue. Otherwise exactly the names with that prefix, ignoring case, are kept. |
| Filters.IngredientFilterAgreesWithListing | backend/api/filters.py:70 | The filter set and the hand-written listing give the same entries in the same order. |
| DataUri.ToInternalValue | backend/api/serializers.py:21-28 | Anything but a string starting "data:image" is passed on unchanged. Such a string is refused exactly when splitting at ";base64," does not give two parts. Otherwise the string is header, marker and payload, neither part contains the marker, and the file is named "temp." followed by the text after the header's last "/". |
| DataUri.ExtensionEndsHeader | backend/api/serializers.py:24 | The extension contains no "/" and ends the header. |
| DataUri.DataUrlRoundTrip | backend/api/serializers.py:22-26 | A data URL built from an image header and a payload without ';' decodes to that payload, named after the header's subtype. |
| DataUri.SubtypeNamesFile | backend/api/serializers.py:22-26 | "data:image/<subtype>;base64,<payload>" becomes the file "temp.<subtype>" carrying the payload, for any subtype without '/' or ';' and any payload without ';'. |
| DataUri.MarkerMissingRefused | backend/api/serializers.py:23 | An image data string without the base64 marker is refused. |
| Serializers.ValidateAmount | backend/api/serializers.py:161-165 | An amount passes exactly when it lies between 1 and 2147483647, the PostgreSQL bound of its PositiveIntegerField, and is then kept unchanged. An amount above the bound is refused as too large, one below 1 as below 1. |
| Serializers.ValidateCookingTime | backend/api/serializers.py:181-186 | A cooking time passes exactly when it lies between 1 and 2147483647, and is then kept unchanged. A larger one is refused as too large, a smaller one as below 1. |
| Serializers.AmountErrors | backend/api/serializers.py:161-165 | Each listed amount is validated on its own. The list reports "below 1" exactly when some amount is below 1, and "too large" exactly when some amount exceeds 2147483647. |
| Serializers.CleanText | backend/recipes/models.py:19-25 | A character field is refused as blank exactly when it is all whitespace. Otherwise it is kept trimmed and non-empty. |
| Serializers.FieldErrors | backend/api/serializers.py:161-186 | The field pass reports every failing field, each in both directions. A name or text that is all whitespace is blank. A name over 256 characters after trimming is too long. A cooking time below 1 or above 2147483647 fails. Some amount below 1, or above 2147483647, fails. No error of `validate` or `_create_ingredients` appears. |
| Serializers.NoFieldErrors | backend/api/serializers.py:161-186 | The field pass is clean exactly when the name and text are not blank, the trimmed name fits, and the cooking time and every amount lie between 1 and 2147483647. |
| Serializers.Validate | backend/api/serializers.py:219-230 | A request passes exactly when the name and text are not blank, the trimmed name fits in 256 characters, the cooking time and every amount lie between 1 and 2147483647, and the ingredients list is present and non-empty. A refusal names at least one error. With clean fields, a missing list is "This field is required." and an empty list is "Ingredients cannot be empty.". |
| Serializers.DistinctIffSetSize | backend/api/serializers.py:238 | Comparing the list's length with its set's size detects repeated ids, in both directions. |
| Serializers.ExistingCountIffAllExist | backend/api/serializers.py:242-245 | For distinct ids, finding as many catalogue entries as ids means every id exists, and conversely. |
| Serializers.NewRows | backend/api/serializers.py:251-257 | One row per listed ingredient, in input order, with that ingredient's id and amount. |
| Serializers.CreateIngredients | backend/api/serializers.py:232-257 | A repeated id is refused first. Then any id missing from the catalogue is refused. Otherwise exactly one row per listed (id, amount) is produced, in order. |
| Serializers.ValidatedRecipeFits | backend/api/serializers.py:259-264 | A validated request stores a recipe whose name is non-empty, trimmed and within 256 characters, whose text is non-empty and trimmed, and whose cooking time lies between 1 and 2147483647. |
| Serializers.Create | backend/api/serializers.py:259-273 | An invalid request changes nothing. Success happens exactly when the request is valid with distinct, existing ids. Consistency is kept when the author is a stored user. |
| Serializers.CreateRefused | backend/api/serializers.py:264-271 | For a valid request whose ingredient list is refused, the recipe inserted first is deleted again and only the id sequence has moved. The error is a repeated or a missing ingredient. |
| Serializers.CreateAccepted | backend/api/serializers.py:264-273 | For an accepted request, the recipe takes the next id and holds exactly the new rows, one per listed ingredient in order. No other recipe's rows change. |
| Serializers.Update | backend/api/serializers.py:275-290 | An unknown recipe or an invalid request changes nothing. Otherwise the ingredients are replaced, succeeding exactly when the ids are distinct and exist. Consistency is kept. |
| Serializers.ReplaceIngredients | backend/api/serializers.py:280-288 | After validation, the update succeeds exactly when the listed ids are distinct and all exist. Consistency is kept either way. |
| Serializers.ReplaceIngredientsRefused | backend/api/serializers.py:283-284 | A refused list leaves the recipe with no rows and its fields as they were, because the old rows are deleted before the list is checked. Other recipes' rows and fields are untouched. |
| Serializers.ReplaceIngredientsAccepted | backend/api/serializers.py:283-288 | An accepted list gives the recipe exactly the new rows and the new fields with the same author. Other recipes' rows and fields are untouched. |
| Serializers.Rewrite | backend/api/serializers.py:283-288 | Deleting the old rows and writing the new ones leaves the recipe with exactly the new rows and fields. Other recipes' rows are unchanged and consistency is kept. |
| Serializers.DropIngredients | backend/api/serializers.py:283 | Exactly the recipe's rows are deleted. Nothing else changes and consistency is kept. |
| Serializers.WriteRecipe | backend/api/serializers.py:285-288 | The new rows become the recipe's rows and the fields are written with the author kept. Other recipes' rows are unchanged. |
| Serializers.RepeatedIdRefused | backend/api/serializers.py:238-240 | A valid request listing some id twice is refused with "Ingredients cannot repeat.". |
| Serializers.IsSubscribed | backend/api/serializers.py:84-90 | False without a request or for an anonymous requester. Otherwise it is whether the requester follows the other user. |
| Schema.DeleteRecipes | backend/recipes/models.py:33-55 | Deleting recipes deletes exactly their ingredient rows, favorites, cart rows and short links. Everything else stays and consistency is kept. |
| Schema.DeleteRecipe | backend/shortlinks/models.py:14-16 | After deleting a recipe, no ingredient row, favorite or short link refers to it. |
| Schema.DeleteIngredient | backend/recipes/models.py:36-38 | Deleting a catalogue entry deletes exactly the ingredient rows that use it and that entry. The other entries keep their values, nothing else in the database changes, and consistency is kept. |
| Schema.DropUser | backend/recipes/models.py:50-52 | Deleting a user who wrote no recipe removes exactly the favorites and cart rows they hold, the subscriptions on either side, and their avatar row. Recipes stay and consistency is kept. |
| Schema.DeleteUser | backend/recipes/models.py:16-18 | Deleting a user deletes exactly the user, the recipes they wrote, and the favorites and cart rows held by them or on their recipes. It also deletes exactly the ingredient rows and short links of those recipes, the subscriptions on either side, and their avatar. The catalogue, the other avatars and the surviving recipes keep their values, and consistency is kept. |
| Schema.AddRecipe | backend/api/serializers.py:264 | The recipe is stored under an id that no recipe of a consistent database holds, and the sequence advances past it. Nothing else changes. With a stored author and a name that fits, consistency is kept. |
| Schema.DeleteFreshRecipe | backend/api/serializers.py:264-271 | Creating a recipe and deleting it before anything refers to it restores the database except for the id sequence. |
| Schema.SchemaLooserThanSerializer | backend/recipes/models.py:27-39 | The schema accepts a database holding several things. One recipe lists the same ingredient twice. Cooking time 0 and amount 0 appear. One recipe has two short links. |
| ShortLinks.CreateSlug | backend/shortlinks/models.py:9-10 | A slug has exactly 8 characters, each an ASCII letter or digit, and each is the alphabet character at its draw. |
| ShortLinks.SlugInjective | backend/shortlinks/models.py:10 | Different draws give different slugs. |
| ShortLinks.EverySlugDrawable | backend/shortlinks/models.py:10 | Every 8-character string of ASCII letters and digits can be drawn. |
| ShortLinks.GetLink | backend/api/views.py:184-188 | An unknown recipe is 404. The recipe's single link is returned unchanged. Several links raise. With no link, a new one is stored under the drawn slug, unless another link already has that slug. The link returned is stored and names the recipe, and consistency is kept. |
| ShortLinks.UniqueSlugsAppend | backend/shortlinks/models.py:17-18 | Appending a link under an unused slug keeps slugs unique. |
| ShortLinks.GetLinkIdempotent | backend/recipes/views.py:54-58 | Once a request has returned a link, asking again returns the same link and changes nothing, whatever is drawn. |
| ShortLinks.FindSlugUnique | backend/shortlinks/models.py:18 | With unique slugs, looking up a link's slug finds that link. |
| ShortLinks.Resolve | backend/shortlinks/views.py:6-8 | An unknown slug is not found. A known slug gives the recipe of a link carrying it. Nothing changes. |
| ShortLinks.ResolveAfterGetLink | backend/shortlinks/views.py:7-8 | The slug handed out by get-link resolves to the recipe it was requested for. |

## Left out

- Authentication, permissions and routing are not modelled: the IsAuthenticated and IsAuthorOrReadOnly classes, djoser and the URL configuration. The requester is a parameter.
- PUT and PATCH on recipes are not distinguished. `update` receives the validated fields either way.
- Pagination and the `-published` ordering of the recipe list are not modelled. `published` is not a field of the recipe model. A queryset is modelled as a plain sequence of ids.
- HTTP packaging is not modelled:
  - the Content-Type and Content-Disposition headers of the download;
  - `build_absolute_uri`;
  - `reverse`;
  - the redirect URL of the short-link view (only the recipe it points to);
  - the serialized bodies of 201 and 200 responses (only the target id).
- Base64 decoding and image validation and storage are not modelled. They sit behind the `imageField` parameter of `ApiViews.Avatar` and behind `DataUri.Internal`, which keeps the payload undecoded.
- Serializers.FieldErrors, Serializers.NoFieldErrors, Serializers.Validate: the request is assumed to carry every required key and an image that the image field has accepted. `RecipeInput.image` is the stored name that field produced. The recipe serializers declare a required `Base64ImageField` (backend/api/serializers.py:169, inherited at 204). Several outcomes are not modelled:
  - a missing image, name, text or cooking time is a 400 for a required field;
  - a value that does not decode to an image file is a 400 from the image field;
  - a `data:image` string without exactly one `;base64,` marker makes the unpacking at backend/api/serializers.py:23 raise `ValueError`, a server error.
- ApiViews.Avatar: a payload that is not valid base64 makes the decoder raise, a server error. The model treats decoding as part of `imageField`, whose refusal is a 400.
- ApiViews.Subscribe, ApiViews.Favorite, ApiViews.ShoppingCart: the requester is assumed to be a stored user. The permission classes demand it.
- Errors are modelled by kind (`Serializers.FieldError`), not by message text. The missing-ingredient message would name an id. The lookup behind it compares integers with 1-tuples, because `values_list` is used without `flat=True`, so the id it names is not reliable.
- Serializers.FieldErrors: DRF reports negative amounts and cooking times with its own `min_value` error before the custom validators run. The model reports them as below 1.
- Serializers.FieldErrors: DRF's CharField also refuses a name or text holding the NUL character. The model accepts it.
- Text.Trim: whitespace is the ASCII whitespace of Python's `str.isspace`. Python also strips non-ASCII whitespace such as U+00A0 and U+3000, which the model keeps.
- Serializers.Create, Serializers.CreateIngredients, Serializers.Update: ingredient ids and amounts are modelled as integers. `_create_ingredients` reads them from the raw request data (backend/api/serializers.py:233-236, 268 and 281). A list element without an `id` key raises `KeyError`, an uncaught server error. A non-integer id makes the database lookup raise, also a server error. On create the recipe inserted first is then kept without ingredient rows, because only `ValidationError` triggers its deletion (backend/api/serializers.py:266-271). On update the old rows are already deleted. The model has neither path.
- ApiViews.Avatar: the 400 for missing data carries the English text of DRF's required-field message. The deployment sets `LANGUAGE_CODE = "ru-RU"` and `USE_I18N = True` (backend/foodgram_backend/settings.py:109-113), so DRF sends that message translated into Russian. Translation is not modelled. The other messages of the model are the source's own English literals, which are not marked for translation.
- ApiViews.Subscribe: the URL's id is converted with `int(id)` (backend/api/views.py:98). A non-numeric id raises `ValueError`, a server error, which the model does not have: its ids are numbers.
- ApiViews.Favorite, ApiViews.ShoppingCart, Relation.RelationAction, ShortLinks.GetLink: a non-numeric `pk` makes `get_object_or_404` raise `ValueError` instead of answering 404 (backend/api/views.py:185, 215, 247, backend/core/decorators.py:35). The model's keys are numbers, so that server error is not modelled.
- Serializers.Update: the branch where `ingredients` is absent is not modelled. `validate` has already refused such a request, so that branch is never reached.
- The boolean filter's form plumbing is not modelled: django-filter skips an empty value before coercion, and a `ValueError` becomes a form error. `Filters.BoolCoerce` models the coercion itself.
- Case folding is ASCII only. Python's `str.lower` and the database's `UPPER`/`LIKE` fold all of Unicode.
- The string order used by `order_by("ingredient__name")` is code-point order. A database collation may order differently. Ties between groups with the same name are broken by unit.
- Concurrency is not modelled. This covers the atomicity of `get_or_create` and races on unique indexes. No transactions are configured, so each request is one sequential step.
- Broken `__str__` methods, admin, settings, the token serializers and backend/recipes/serializers.py are not modelled. The last one names fields the model does not have.
- The `ShoppingCart` and `Subscription` models that the views import have no class in backend/recipes/models.py or backend/users/models.py, where the other models live. The model treats them like `Favorite`: a user and a target, a unique pair, and rows deleted with either side.
- Avatars are a map from user to an optional stored name. This gives each user at most one avatar row, as the one-to-one field of backend/users/models.py:8-10 does. The stored file itself is not modelled.
- The random draws of `create_slug` are a parameter, a sequence of eight alphabet indices.

## Findings

| source | as written | input that shows it | evidently intended | confidence | as-written member | corrected member |
|---|---|---|---|---|---|---|
| backend/recipes/views.py:136 | The cart is read with `values("id")`, so ingredient rows are selected by cart-row ids compared against recipe ids. | User 1's only cart row has id 7 and points at recipe 1 (salt). Recipe 7 (sugar) is not in the cart. The list shows "Sugar: 3 (g)" instead of "Salt: 5 (g)". | `values("recipe")`, as in backend/api/views.py:296-297: select the rows of the recipes in the cart. | not executed | ShoppingList.RowIdsListWrongRecipe | ShoppingList.CartListIsCartIngredients |
