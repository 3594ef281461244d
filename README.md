# Recipe backend: a Dafny model

This project models the core of a Firebase recipe backend: an Express API
deployed as a Cloud Function over a Firestore collection `recipes`, two
counter documents `recipeCounts/all` and `recipeCounts/published` kept up to
date by Firestore triggers, a storage bucket holding the recipe images, and a
daily scheduled job that publishes recipes once their publish date has passed.

The model has five modules:

- `Values` (`values.dfy`): JavaScript values as the functions see them, with
  truthiness and property access.
- `Utilities` (`utilities.dfy`): the request helpers.
  - `authorizeUser` takes the second space-separated piece of the
    `Authorization` header and hands it to the identity service.
  - `validateRecipePostPut` runs its seven field checks and joins the names
    of the failing fields with no separator.
  - `sanitizeRecipePostPut` projects a body onto the seven stored fields.
- `Triggers` (`triggers.dfy`): the pure logic of `index.js`.
  - the counter updates of the three triggers;
  - a database `Db` of recipes and counters, with the writes that fire the
    triggers;
  - the storage-path extraction of `onDeleteRecipe`, with JavaScript's
    `indexOf` and `substring`;
  - the daily publisher's selection and merge.
- `Listing` (`listing.dfy`): the query built by `GET /recipes`, how Firestore
  runs it (its equality filters, then offset, then limit), which counter
  supplies `recipeCount`, and how each fetched document is flattened.
- `Backend` (`backend.dfy`): the class `RecipeBackend`.
  - fields: the collection, the two counters and the bucket;
  - methods: the three triggers, the Firestore writes that fire them, the
    daily publisher as a loop, and the four API handlers.

Its ghost invariant `Valid()` says the counters equal the true counts: the
number of recipes, and the number whose `isPublished` is truthy. All
trigger-firing writes preserve it, provided each trigger runs to completion.
So does the whole API, under the same proviso.

The properties proved:

- The validator's message decodes back to exactly the failing fields, even
  though the names are run together with no separator.
- The message is empty exactly when the recipe passes.
- The `isPublished` check, as written (`Boolean(x) !== true && Boolean(x) !== false`),
  can never fire, and the model keeps that behaviour.
- The `Authorization` token is the text between the first and the second
  space, or all the text after the space when there is only one. It is
  `undefined` exactly when there is no space.
- The counters stay correct under every sequence of creates, updates and
  deletes, starting from a fresh deployment. This assumes every trigger runs
  to completion; "## Left out" names the two throws in `onDeleteRecipe` that
  break this.
- Creating a recipe and then deleting it restores the database. This needs
  the `all` counter document to exist already, and the `published` one too
  when the recipe is published. From a fresh deployment the counter is left
  at 0 instead of absent.
- A body without `isPublished` passes validation, but its sanitized record
  holds `isPublished: undefined`. Firestore rejects that, so POST and PUT of
  such a body always answer 400.
- An unauthorized listing holds only recipes whose `isPublished` is exactly
  `true`.
- The `published` counter instead tallies recipes whose `isPublished` is
  truthy. The two agree when every stored `isPublished` is a boolean. A stored
  `"yes"`, which the validator lets through, is counted but never listed.
- Paging returns exactly page `n` of the filtered collection.
- The daily run publishes exactly the due recipes, changes nothing else, and
  is idempotent. Its `onUpdate` triggers add the number of due recipes to
  `published`.

## Model

| member | source | states |
|---|---|---|
| `Utilities.AuthorizeUser` | functions/utilities.js:1-13 | a missing or empty header fails with "no authorization provided!"; otherwise it succeeds exactly when the identity service accepts the token `header.split(" ")[1]` |
| `Utilities.JoinSplit` | functions/utilities.js:5 | `split(" ")` loses nothing: joining the pieces with single spaces gives back the header |
| `Utilities.Token` | functions/utilities.js:5 | `authorizationHeader.split(" ")[1]`, `undefined` when there is no second piece; its properties are `TokenAbsentIffNoSpace` and `BearerToken` |
| `Utilities.BearerToken` | functions/utilities.js:5 | for a header `"<scheme> <token>"` with no other spaces, the token passed on is exactly `<token>` |
| `Utilities.TokenAbsentIffNoSpace` | functions/utilities.js:5 | the token is `undefined` if and only if the header has no space, and a token never contains a space |
| `Utilities.CheckField` | functions/utilities.js:20-40 | one field check: appends the field's name exactly when that field fails, which extends the names reported so far by one place |
| `Utilities.MissingFields` | functions/utilities.js:14-42 | the validator's result as a reference definition: `"recipe"` for a falsy input, otherwise the failing fields' names concatenated in check order; `MessageRoundTrip` and `EmptyIffPasses` state what it means |
| `Utilities.ValidateRecipePostPut` | functions/utilities.js:14-42 | the result is `"recipe"` for a falsy input and otherwise the names of the failing fields in the validator's order, with no separator |
| `Utilities.FieldReportedIff` | functions/utilities.js:20-40 | a field is reported if and only if it fails its own test; `ingredients` is reported if and only if it is falsy or has length 0 |
| `Utilities.PassesIffNoneReported` | functions/utilities.js:20-40 | a present recipe passes if and only if no check fires |
| `Utilities.EmptyIffPasses` | functions/utilities.js:14-42 | the message is empty, which makes the handler accept the recipe, if and only if the input is truthy and its name, category, directions, publish date, non-empty ingredients and image URL are all truthy |
| `Utilities.AbsentRecipe` | functions/utilities.js:16-19 | a falsy input yields exactly `"recipe"` and never passes |
| `Utilities.NeverReportsIsPublished` | functions/utilities.js:29-31 | the `isPublished` test as written never fires: that name never appears in any message |
| `Utilities.FieldsFromMembers` | functions/utilities.js:20-40 | the fields selected from a place on are exactly the fields at or after it whose check fired |
| `Utilities.FieldsRoundTrip` | functions/utilities.js:20-41 | reading the concatenated names back field by field gives the selected fields |
| `Utilities.MessageRoundTrip` | functions/utilities.js:15-41 | parsing the message gives back "no recipe" for a falsy input and otherwise exactly the list of failing fields |
| `Utilities.MessageDeterminesFields` | functions/utilities.js:15-41 | two present recipes with the same message fail the same fields, so the unseparated message is unambiguous |
| `Utilities.SanitizeRecipePostPut` | functions/utilities.js:43-53 | the record has exactly the seven fields; each is copied from the body, except `publishDate`, which is `new Date(...)` of the body's date |
| `Utilities.SanitizeDropsExtraFields` | functions/utilities.js:43-53 | no field outside the seven survives sanitizing |
| `Utilities.SanitizeIdempotent` | functions/utilities.js:43-53 | sanitizing a sanitized record gives it back, when converting a date twice equals converting it once |
| `Triggers.Indicator` | functions/index.js:27 | a recipe counts as published, with indicator 1, exactly when `recipe.isPublished` is truthy; otherwise the indicator is 0 |
| `Triggers.Bump` | functions/index.js:18-25 | an existing counter is incremented by the delta; a missing counter document is created with the initial value |
| `Triggers.AfterCreate` | functions/index.js:17-38 | `all` is incremented, or created as 1; `published` is changed the same way only for a published recipe |
| `Triggers.AfterDelete` | functions/index.js:58-75 | `all` is decremented, or created as 0; `published` is changed the same way only for a published recipe |
| `Triggers.AfterUpdate` | functions/index.js:88-108 | `all` is untouched; `published` moves by the publish delta; a missing `published` document is created as the delta when it is positive and as 0 otherwise; nothing changes when the delta is 0 |
| `Triggers.DeltaCases` | functions/index.js:81-87 | the publish delta is +1 exactly on unpublished to published, -1 exactly on published to unpublished, and 0 exactly when the published status is unchanged |
| `Triggers.Apply` | functions/index.js:17-109 | a write followed by the trigger it fires: `set` on an existing id fires `onUpdate`, on a new id `onCreate`; `delete` fires `onDelete` only for an existing id, and deleting a missing id changes nothing |
| `Triggers.Storable` | functions/recipesApi.js:41-48 | Firestore accepts a document only when no field holds `undefined`, since `ignoreUndefinedProperties` is not set |
| `Triggers.PublishedAfterSet` | functions/index.js:17-38 | after a write, the published ids are the old ones without the written id, plus that id when the new document is published |
| `Triggers.PublishedCountAfterSet` | functions/index.js:78-109 | the number of published recipes after a write moves by the written document's indicator, minus the replaced document's indicator |
| `Triggers.CreatePreservesAgreement` | functions/index.js:17-38 | creating a document keeps both counters equal to the true counts |
| `Triggers.UpdatePreservesAgreement` | functions/index.js:78-109 | overwriting a document keeps both counters equal to the true counts |
| `Triggers.DeletePreservesAgreement` | functions/index.js:39-77 | deleting a document, or deleting a missing one, which fires no trigger, keeps both counters equal to the true counts |
| `Triggers.ApplyAllPreservesAgreement` | functions/index.js:17-109 | any sequence of writes keeps the counters equal to the true counts |
| `Triggers.FromFreshAlwaysAgrees` | functions/index.js:17-109 | starting with no recipes and no counter documents, the counters are always the true counts |
| `Triggers.CreateThenDeleteRestores` | functions/index.js:17-75 | when the `all` counter document exists, and the `published` one too for a published recipe, creating a new recipe and then deleting it restores the collection and both counters |
| `Triggers.IndexOf` | functions/index.js:46-47 | `indexOf` is -1 exactly when the pattern does not occur, and otherwise is the first place where it occurs |
| `Triggers.FirstOccurrence` | functions/index.js:46-47 | the first place where the pattern occurs is what `indexOf` returns |
| `Triggers.Substring` | functions/index.js:48 | `substring` clamps its bounds into the string and swaps them when they are reversed |
| `Triggers.StoragePath` | functions/index.js:45-48 | `decodedUrl.substring(indexOf("/o/") + 3, indexOf("?"))`; its properties are `PathBetweenMarkers` and `StoragePathOfUrl` |
| `Triggers.PathBetweenMarkers` | functions/index.js:45-48 | when `/o/` occurs and the first `?` comes after it, the path is the text strictly between them |
| `Triggers.StoragePathOfUrl` | functions/index.js:45-48 | for a decoded download URL `prefix + "/o/" + path + "?" + query`, the extracted path is exactly `path` |
| `Triggers.ComparedNumber` | functions/index.js:122 | the number `<=` converts `_seconds` to: a number is itself, `null` is 0 and a boolean is 0 or 1; `undefined` and an object become NaN, which compares false |
| `Triggers.Reached` | functions/index.js:121-122 | `publishDate._seconds <= Date.now() / 1000`, with the clock in milliseconds; an absent or null date throws and never counts as reached; otherwise `_seconds` is compared as the number `<=` converts it to |
| `Triggers.ReachedCases` | functions/index.js:121-122 | a numeric `_seconds` is reached exactly once the clock has passed it; a `null` or `false` one is reached at any time from 0 on; a date without `_seconds` is never reached |
| `Triggers.Due` | functions/index.js:118-122 | a recipe is due when its `isPublished` is exactly `false` and its date has been reached |
| `Triggers.PublishDue` | functions/index.js:116-132 | the collection after the daily run, as a reference definition: every due recipe merged with `isPublished: true` |
| `Triggers.MergePublished` | functions/index.js:125-128 | `set({ isPublished: true }, { merge: true })` sets that one field and keeps every other field |
| `Triggers.PublishAmongStep` | functions/index.js:119-131 | handling one more unpublished recipe changes only that recipe, and only when it is due |
| `Triggers.PublishAmongUnpublished` | functions/index.js:118-131 | handling every recipe whose `isPublished` is `false` is the whole run |
| `Triggers.PublishDueRule` | functions/index.js:116-132 | the run keeps every id; a due recipe gets `isPublished: true` and keeps its other fields; every other recipe is unchanged |
| `Triggers.PublishDueIdempotent` | functions/index.js:116-132 | running twice at the same time gives the same collection as running once |
| `Triggers.AfterPublishingStep` | functions/index.js:88-99 | publishing one more recipe is one more `onUpdate` with delta 1 on the `published` counter |
| `Triggers.PublishIsUpdateByOne` | functions/index.js:81-99 | merging `isPublished: true` into a recipe whose `isPublished` is `false` has delta 1, so its trigger adds 1 to `published`, or creates it as 1, and leaves `all` alone |
| `Triggers.DueAmongStep` | functions/index.js:119-131 | handling one more recipe adds one to the number of due recipes exactly when it is due |
| `Triggers.DueAmongUnpublished` | functions/index.js:118 | every due recipe is among those the query returns, so covering those covers every due recipe |
| `Triggers.PublishDuePublishedIds` | functions/index.js:116-132 | after the run the published recipes are the old ones plus the due ones, and no due recipe was published before |
| `Triggers.NothingDueAfterRun` | functions/index.js:122-128 | after the run, no recipe is still due |
| `Listing.PageOffset` | functions/recipesApi.js:77-81 | an offset is set if and only if `pageNumber > 0` and `perPage` is given, and then it is `(pageNumber - 1) * perPage` |
| `Listing.ListQuery` | functions/recipesApi.js:59-81 | the query as a reference definition: the published filter for an unauthorized caller, the category filter when given, the order, `perPage` as the limit and `PageOffset` as the offset; `ListQueryFilters` states its filters |
| `Listing.BuildListQuery` | functions/recipesApi.js:59-81 | the query is built step by step to exactly the query `ListQuery` describes |
| `Listing.ListQueryFilters` | functions/recipesApi.js:59-76 | the `isPublished == true` filter is present if and only if the caller is unauthorized; a given category adds its filter; no other filter is added; the limit is `perPage` |
| `Listing.Filtered` | functions/recipesApi.js:66-69 | the rows kept are exactly those matching every equality filter, in order |
| `Listing.Window` | functions/recipesApi.js:74-81 | Firestore's offset and limit: skip `offset` rows, or all of them when fewer remain, then keep at most `limit`; `Pagination` states the page it selects |
| `Listing.RunQuery` | functions/recipesApi.js:99 | what `collectionRef.get()` returns: the rows in query order that pass every filter, then the offset and the limit |
| `Listing.RunQuerySound` | functions/recipesApi.js:99 | every returned row is stored and matches every filter of the query |
| `Listing.UnauthorizedSeesOnlyPublished` | functions/recipesApi.js:61-67 | an unauthorized caller gets only rows whose `isPublished` is `true` |
| `Listing.CategoryFilterApplies` | functions/recipesApi.js:68-70 | with a category given, every returned row has that category |
| `Listing.AuthorizedUnfiltered` | functions/recipesApi.js:59-70 | an authorized caller with no category filters nothing out |
| `Listing.Pagination` | functions/recipesApi.js:74-81 | with `pageNumber = n > 0` and `perPage = k`, the result is positions `(n-1)*k` to `n*k` of the filtered rows, cut at their end |
| `Listing.FirstPageOnly` | functions/recipesApi.js:74-81 | with `perPage` but no positive page number, the result is the first `perPage` filtered rows |
| `Listing.NoPaging` | functions/recipesApi.js:74-81 | without `perPage` the result is all filtered rows, even when a page number is given |
| `Listing.RecipeCount` | functions/recipesApi.js:82-97 | `recipeCount`: the `all` counter for an authorized caller, `published` otherwise, and 0 when that counter document does not exist |
| `Listing.RecipeCountIsTrueCount` | functions/recipesApi.js:82-97 | when the counters agree with the collection, `recipeCount` is the number of all recipes for an authorized caller, and otherwise the number whose `isPublished` is truthy |
| `Listing.PublishedCountMatchesListing` | functions/recipesApi.js:66-97 | when every stored `isPublished` is a boolean or falsy, the unauthorized `recipeCount` equals the number of recipes the published filter keeps |
| `Listing.TruthyCountedButNotListed` | functions/recipesApi.js:66-97 | with agreeing counters, a recipe whose `isPublished` is `"yes"` makes the unauthorized `recipeCount` 1, while the unauthorized listing is empty for every choice of parameters |
| `Listing.FlattenDoc` | functions/recipesApi.js:100-105 | a document without a `publishDate` gets a TypeError; otherwise its `publishDate` becomes the date's `_seconds`, its `id` is added and every other field is kept |
| `Listing.FlattenAll` | functions/recipesApi.js:99-105 | the listing fails if any document fails; otherwise each document is flattened, in order |
| `Listing.UnauthorizedListingPublished` | functions/recipesApi.js:59-105 | every document listed to an unauthorized caller has `isPublished: true` |
| `Backend.PublishCountDelta` | functions/index.js:81-87 | `publishCount` is +1 exactly on unpublished to published, -1 exactly on published to unpublished, and otherwise 0 |
| `Backend.AcceptedRecipeStorable` | functions/recipesApi.js:35-48 | a body that passes validation, which by `EmptyIffPasses` is one the validator accepts, can be stored if and only if it has an `isPublished` and its date converts to a defined value |
| `Backend.RecipeBackend.OnCreateRecipe` | functions/index.js:17-38 | the counters move as `AfterCreate` says; the collection and the bucket are untouched |
| `Backend.RecipeBackend.OnDeleteRecipe` | functions/index.js:39-77 | with a truthy `imageUrl`, the object at the extracted path is deleted, if it exists; the counters move as `AfterDelete` says |
| `Backend.RecipeBackend.OnUpdateRecipe` | functions/index.js:78-109 | the counters move as `AfterUpdate` says; the collection and the bucket are untouched |
| `Backend.RecipeBackend.SetDocument` | functions/recipesApi.js:137 | the document is stored under its id and the create or update trigger fires; the counters stay correct |
| `Backend.RecipeBackend.DeleteDocument` | functions/recipesApi.js:160 | the document is removed; the delete trigger fires only if it existed, and then removes its image; the counters stay correct |
| `Backend.RecipeBackend.PublishIfReached` | functions/index.js:120-130 | a due recipe is merged with `isPublished: true`, the whole new state is that write with its `onUpdate`, and `published` moves up by 1, or is created as 1; otherwise nothing changes |
| `Backend.RecipeBackend.DailyCheckRecipePublishDate` | functions/index.js:116-132 | after the loop over the unpublished recipes, the collection is exactly `PublishDue` of the old one; `published` has grown by the number of due recipes, or is created as that number, and is unchanged when none is due; the bucket and the `all` counter are unchanged; the counters stay correct |
| `Backend.RecipeBackend.PostRecipe` | functions/recipesApi.js:20-49 | 401 without a header or a valid token; 200 with the "Missing fields" message for an invalid body; 400 when the write fails, which includes a sanitized record holding `undefined`; otherwise 201 with the new id, and the sanitized recipe is stored |
| `Backend.RecipeBackend.PutRecipe` | functions/recipesApi.js:115-144 | 401 without a header or a valid token; 400 with the "Missing/invalid fields" text for an invalid body; 400 with the error text for a failed write, a record holding `undefined` included; otherwise 200 with the id, and the document is replaced by the sanitized recipe |
| `Backend.RecipeBackend.DeleteRecipe` | functions/recipesApi.js:145-166 | 401 without a header or a valid token; 400 when the delete fails; otherwise 200 with an empty body, the document is gone, and the object its truthy `imageUrl` names is removed from the bucket, which is otherwise unchanged |
| `Backend.RecipeBackend.ListRecipes` | functions/recipesApi.js:50-114 | the response is the flattened result of the built query, with the counter the caller's status selects, or 400 when the query or the flattening fails; an unauthorized caller sees only recipes whose `isPublished` is `true`; with correct counters, `recipeCount` is the number of all recipes when authorized and of those with a truthy `isPublished` otherwise |

## Left out

The triggers:

- `newUserSignup` is not modelled. It only copies the user's name and email
  into `user/<uid>`, which nothing in this core reads.
- Logging is not modelled, nor the network, the Express setup, CORS, the
  local-development listener or the `GET /` greeting.
- Triggers run synchronously right after the write that fires them.
  Concurrent triggers are not modelled. The daily run's callbacks are not
  awaited in the source; the model runs them one after another.
- Firestore does not fire an update trigger for a write that changes
  nothing. The model always fires it, which is harmless because the delta is
  then 0.
- A counter document is modelled as its `count` field: present or absent.
- `decodeURIComponent` is the parameter `decode`, a total function, and is
  not modelled.
- Backend.RecipeBackend.OnDeleteRecipe: it does not model the two throws
  that end `onDeleteRecipe` before the counters are decremented. They sit
  outside the `try` of `index.js`.
  - `decodeURIComponent` throws a URIError on a malformed URL such as `"%"`.
    The validator only checks that `imageUrl` is truthy.
  - `storageBucket.file` throws on an empty path, for instance for a URL
    ending in `/o/?`.
  In the source, deleting such a recipe leaves `all` one too high, and
  `published` too for a published recipe.
  So `Valid()`, and the preservation lemmas of `Triggers`, hold only for
  recipes without such an image URL.
- `storageBucket.file(path).delete()` removes the path from the set of stored
  objects. A failed delete, for a missing object, is only logged in the
  source; the model leaves the bucket unchanged.
- Triggers.PublishDueRule: the daily run reads the clock once, as `nowMs`,
  and not once per recipe.
- Triggers.Reached: date comparison is on whole seconds. A fractional
  `_seconds` is not modelled.
- Triggers.Reached: the conversion `<=` applies to a string or an array
  `_seconds` is not modelled. In the source, `"5"` compares as 5 and `[]` as 0.
  The model treats both as NaN, so they never count as reached. A Timestamp
  written through the API always holds integer `_seconds`.
- Triggers.PublishDueRule: the source throws a TypeError inside the callback
  when `publishDate` is missing or null. That error is not awaited, so the
  only effect is that no write happens, which is what the model does.

The API:

- The API has no real JSON parsing. `req.body` is already decoded. On POST,
  the `JSON.parse` of the decoded body is taken to give the same value back.
- `verifyIdToken` is the parameter `verify`, and the identity service is not
  modelled.
- `new Date(...)` is the parameter `toDate`.
- Firestore `add`'s fresh id is the parameter `newId`.
- Triggers.Storable: only a top-level `undefined` field is rejected. An
  `undefined` nested in an array or object is not modelled, and a JSON body
  cannot hold one.
- A failing write, delete or query is a boolean parameter. Its error message
  is unknown to the model and is written `ErrJson` / `ErrText`.
- Listing.RunQuery: `orderBy` is not modelled. The caller gives the
  collection in the query's order, as `order`. Firestore leaving out
  documents that lack the order field is not modelled either.
- Listing.PageOffset: numbers are integers. `Number(perPage)`, floats, NaN
  and string-to-number coercion are not modelled. `perPage` is a natural
  number when given, and `pageNumber` an integer.
