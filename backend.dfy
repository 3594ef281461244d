/**
  The backend's state and the code that changes it: the `recipes` collection,
  the two counter documents and the storage bucket; the three Firestore
  triggers and the daily publisher of `index.js`; and the four handlers of the
  recipe API in `recipesApi.js`.
 */
module Backend {
  import opened Values
  import opened Utilities
  import opened Triggers
  import opened Listing

  /** A response body. `ErrJson` is `{ err: error.message }` and `ErrText` is
      `error.message` for an error whose message the model does not know;
      `Payload` is the listing's `{ recipeCount, documents }`. */
  datatype Body =
    | Json(value: Value)
    | Text(text: string)
    | ErrJson
    | ErrText
    | NoBody
    | Payload(recipeCount: int, documents: seq<Doc>)

  datatype Response = Response(status: int, body: Body)

  const MissingHeader := "Missing Authorization Header"
  const InvalidPost := "Recipe is not valid.Missing fields => "
  const InvalidPut := "Recipe is not valid. Missing/invalid fields: "

  /** `onUpdateRecipe`'s `publishCount`. */
  method PublishCountDelta(oldRecipe: Doc, newRecipe: Doc) returns (publishCount: int)
    ensures publishCount == Delta(oldRecipe, newRecipe)
    ensures publishCount == 1 <==> !IsPublishedDoc(oldRecipe) && IsPublishedDoc(newRecipe)
    ensures publishCount == -1 <==> IsPublishedDoc(oldRecipe) && !IsPublishedDoc(newRecipe)
  {
    publishCount := 0;
    if !IsPublishedDoc(oldRecipe) && IsPublishedDoc(newRecipe) {
      publishCount := publishCount + 1;
    } else if IsPublishedDoc(oldRecipe) && !IsPublishedDoc(newRecipe) {
      publishCount := publishCount - 1;
    }
  }

  /** The validator lets a body without `isPublished` through, but its sanitized
      record then holds `isPublished: undefined`, which Firestore rejects. An
      accepted body (one that passes, see `EmptyIffPasses`) is stored only when
      it has an `isPublished` and its date converts to something defined. */
  lemma AcceptedRecipeStorable(body: Value, toDate: Value -> Value)
    requires Passes(body)
    ensures Storable(SanitizeRecipePostPut(body, toDate)) <==>
      Get(body, "isPublished") != Undefined && toDate(Get(body, "publishDate")) != Undefined
  {
    var recipe := SanitizeRecipePostPut(body, toDate);
    if Get(body, "isPublished") != Undefined && toDate(Get(body, "publishDate")) != Undefined {
      forall k | k in recipe
        ensures recipe[k] != Undefined
      {
        assert k in RecipeKeys;
      }
    } else {
      assert "isPublished" in recipe && "publishDate" in recipe;
    }
  }

  class RecipeBackend {
    /** The collection `recipes`. */
    var recipes: map<string, Doc>
    /** `recipeCounts/all` and `recipeCounts/published`. */
    var allCount: Option<int>
    var publishedCount: Option<int>
    /** The paths of the objects in the storage bucket. */
    var objects: set<string>

    function View(): Db
      reads this
    {
      Db(recipes, Counts(allCount, publishedCount))
    }

    /** The counters equal the true counts. */
    ghost predicate Valid()
      reads this
    {
      CountsAgree(View())
    }

    /** A fresh deployment: no recipes and no counter documents. */
    constructor(stored: set<string>)
      ensures View() == Fresh && objects == stored
      ensures Valid()
    {
      recipes := map[];
      allCount := None;
      publishedCount := None;
      objects := stored;
      new;
      assert PublishedIds(recipes) == {};
    }

    // -------------------------------------------------------------------------
    // Triggers
    // -------------------------------------------------------------------------

    /** `onCreateRecipe`. */
    method OnCreateRecipe(recipe: Doc)
      modifies this
      ensures View().counts == AfterCreate(old(View().counts), recipe)
      ensures recipes == old(recipes) && objects == old(objects)
    {
      if allCount.Some? {
        allCount := Some(allCount.value + 1);
      } else {
        allCount := Some(1);
      }
      if IsPublishedDoc(recipe) {
        if publishedCount.Some? {
          publishedCount := Some(publishedCount.value + 1);
        } else {
          publishedCount := Some(1);
        }
      }
    }

    /** `onDeleteRecipe`: with a truthy `imageUrl` it tries to delete the object
        named by the decoded URL (`decode` is `decodeURIComponent`) and returns
        the path it tried; a failed delete is only logged. Either way the
        counters are decremented. */
    method OnDeleteRecipe(recipe: Doc, decode: Value -> string) returns (attempted: Option<string>)
      modifies this
      ensures View().counts == AfterDelete(old(View().counts), recipe)
      ensures recipes == old(recipes)
      ensures Truthy(Field(recipe, "imageUrl")) ==>
        attempted == Some(StoragePath(decode(Field(recipe, "imageUrl")))) && objects == old(objects) - {attempted.value}
      ensures !Truthy(Field(recipe, "imageUrl")) ==> attempted == None && objects == old(objects)
    {
      attempted := None;
      var imageUrl := Field(recipe, "imageUrl");
      if Truthy(imageUrl) {
        var decodedUrl := decode(imageUrl);
        var startIndex := IndexOf(decodedUrl, ObjectMarker) + 3;
        var endIndex := IndexOf(decodedUrl, "?");
        var fullFilePath := Substring(decodedUrl, startIndex, endIndex);
        attempted := Some(fullFilePath);
        if fullFilePath in objects {
          objects := objects - {fullFilePath};
        }
      }
      if allCount.Some? {
        allCount := Some(allCount.value - 1);
      } else {
        allCount := Some(0);
      }
      if IsPublishedDoc(recipe) {
        if publishedCount.Some? {
          publishedCount := Some(publishedCount.value - 1);
        } else {
          publishedCount := Some(0);
        }
      }
    }

    /** `onUpdateRecipe`. */
    method OnUpdateRecipe(oldRecipe: Doc, newRecipe: Doc)
      modifies this
      ensures View().counts == AfterUpdate(old(View().counts), oldRecipe, newRecipe)
      ensures recipes == old(recipes) && objects == old(objects)
    {
      var publishCount := PublishCountDelta(oldRecipe, newRecipe);
      if publishCount != 0 {
        if publishedCount.Some? {
          publishedCount := Some(publishedCount.value + publishCount);
        } else if publishCount > 0 {
          publishedCount := Some(publishCount);
        } else {
          publishedCount := Some(0);
        }
      }
    }

    // -------------------------------------------------------------------------
    // Writes to `recipes`, each followed by the trigger it fires
    // -------------------------------------------------------------------------

    /** `doc(id).set(doc)`. */
    method SetDocument(id: string, doc: Doc)
      modifies this
      ensures View() == Apply(old(View()), Set(id, doc))
      ensures recipes == old(recipes)[id := doc]
      ensures objects == old(objects)
      ensures old(Valid()) ==> Valid()
    {
      if id in recipes {
        var before := recipes[id];
        recipes := recipes[id := doc];
        OnUpdateRecipe(before, doc);
      } else {
        recipes := recipes[id := doc];
        OnCreateRecipe(doc);
      }
      if old(Valid()) {
        ApplyPreservesAgreement(old(View()), Set(id, doc));
      }
    }

    /** `doc(id).delete()`; the trigger fires only when the document existed,
        and then reports the storage path it tried. */
    method DeleteDocument(id: string, decode: Value -> string) returns (attempted: Option<string>)
      modifies this
      ensures View() == Apply(old(View()), Delete(id))
      ensures id !in old(recipes) ==> attempted == None && objects == old(objects)
      ensures id in old(recipes) && Truthy(Field(old(recipes)[id], "imageUrl")) ==>
        attempted == Some(StoragePath(decode(Field(old(recipes)[id], "imageUrl"))))
        && objects == old(objects) - {attempted.value}
      ensures id in old(recipes) && !Truthy(Field(old(recipes)[id], "imageUrl")) ==>
        attempted == None && objects == old(objects)
      ensures old(Valid()) ==> Valid()
    {
      attempted := None;
      if id in recipes {
        var recipe := recipes[id];
        recipes := recipes - {id};
        attempted := OnDeleteRecipe(recipe, decode);
      }
      if old(Valid()) {
        ApplyPreservesAgreement(old(View()), Delete(id));
      }
    }

    // -------------------------------------------------------------------------
    // The daily publisher
    // -------------------------------------------------------------------------

    /** The callback the daily run gives each unpublished recipe: it merges
        `isPublished: true` when the publish date has been reached. */
    method PublishIfReached(id: string, nowMs: int)
      requires id in recipes && Unpublished(recipes[id])
      modifies this
      ensures View() == if Due(old(recipes)[id], nowMs)
        then Apply(old(View()), Set(id, MergePublished(old(recipes)[id]))) else old(View())
      ensures recipes == if Due(old(recipes)[id], nowMs)
        then old(recipes)[id := MergePublished(old(recipes)[id])] else old(recipes)
      ensures publishedCount == if Due(old(recipes)[id], nowMs)
        then Bump(old(publishedCount), 1, 1) else old(publishedCount)
      ensures allCount == old(allCount) && objects == old(objects)
      ensures old(Valid()) ==> Valid()
    {
      var data := recipes[id];
      if Reached(Field(data, "publishDate"), nowMs) {
        PublishIsUpdateByOne(View().counts, data);
        SetDocument(id, MergePublished(data));
      }
    }

    /** `dailyCheckRecipePublishDate`: every recipe whose `isPublished` is
        `false` and whose publish date has been reached is merged with
        `isPublished: true`, one at a time, each write firing `onUpdate`. */
    method DailyCheckRecipePublishDate(nowMs: int)
      modifies this
      ensures recipes == PublishDue(old(recipes), nowMs)
      ensures publishedCount == AfterPublishing(old(publishedCount), |DueIds(old(recipes), nowMs)|)
      ensures allCount == old(allCount) && objects == old(objects)
      ensures old(Valid()) ==> Valid()
    {
      ghost var start := recipes;
      var snap := set id | id in recipes && Unpublished(recipes[id]);
      var pending := snap;
      ghost var done: set<string> := {};
      while pending != {}
        invariant pending <= snap && done !! pending
        invariant forall id :: id in start && Unpublished(start[id]) ==> id in done || id in pending
        invariant forall id :: id in pending ==> id in start && Unpublished(start[id])
        invariant recipes == PublishAmong(start, done, nowMs)
        invariant publishedCount == AfterPublishing(old(publishedCount), |DueAmong(start, done, nowMs)|)
        invariant allCount == old(allCount) && objects == old(objects)
        invariant old(Valid()) ==> Valid()
        decreases pending
      {
        var id :| id in pending;
        PublishAmongStep(start, done, id, nowMs);
        DueAmongStep(start, done, id, nowMs);
        AfterPublishingStep(old(publishedCount), |DueAmong(start, done, nowMs)|);
        PublishIfReached(id, nowMs);
        done := done + {id};
        pending := pending - {id};
      }
      PublishAmongUnpublished(start, done, nowMs);
      DueAmongUnpublished(start, done, nowMs);
    }

    // -------------------------------------------------------------------------
    // The recipe API
    // -------------------------------------------------------------------------

    /** `POST /recipes`: `add` stores the sanitized recipe under the fresh id
        `newId`. The write is rejected when the record holds an `undefined`
        field, or for any other reason when `writeFails`. */
    method PostRecipe(header: Option<string>, body: Value, verify: Option<string> -> bool,
                      toDate: Value -> Value, newId: string, writeFails: bool) returns (response: Response)
      requires newId !in recipes
      modifies this
      ensures !HeaderPresent(header) ==>
        response == Response(401, Json(Str(MissingHeader))) && unchanged(this)
      ensures HeaderPresent(header) && AuthorizeUser(header, verify).Unauthorized? ==>
        response == Response(401, ErrJson) && unchanged(this)
      ensures AuthorizeUser(header, verify).Authorized? && MissingFields(body) != "" ==>
        response == Response(200, Json(Str(InvalidPost + MissingFields(body)))) && unchanged(this)
      ensures AuthorizeUser(header, verify).Authorized? && MissingFields(body) == ""
              && (writeFails || !Storable(SanitizeRecipePostPut(body, toDate))) ==>
        response == Response(400, ErrJson) && unchanged(this)
      ensures AuthorizeUser(header, verify).Authorized? && MissingFields(body) == ""
              && !writeFails && Storable(SanitizeRecipePostPut(body, toDate)) ==>
        && response == Response(201, Json(Obj(map["id" := Str(newId)])))
        && View() == Apply(old(View()), Set(newId, SanitizeRecipePostPut(body, toDate)))
        && newId in recipes && recipes[newId] == SanitizeRecipePostPut(body, toDate)
      ensures objects == old(objects)
      ensures old(Valid()) ==> Valid()
    {
      if !HeaderPresent(header) {
        return Response(401, Json(Str(MissingHeader)));
      }
      if AuthorizeUser(header, verify).Unauthorized? {
        return Response(401, ErrJson);
      }
      var missingFields := ValidateRecipePostPut(body);
      if missingFields != "" {
        return Response(200, Json(Str(InvalidPost + missingFields)));
      }
      var recipe := SanitizeRecipePostPut(body, toDate);
      if writeFails || !Storable(recipe) {
        return Response(400, ErrJson);
      }
      SetDocument(newId, recipe);
      response := Response(201, Json(Obj(map["id" := Str(newId)])));
    }

    /** `PUT /recipes/:id`: replaces the whole document with the sanitized
        recipe (no merge); rejected like the write of `POST`. */
    method PutRecipe(header: Option<string>, id: string, body: Value, verify: Option<string> -> bool,
                     toDate: Value -> Value, writeFails: bool) returns (response: Response)
      modifies this
      ensures !HeaderPresent(header) ==>
        response == Response(401, Json(Str(MissingHeader))) && unchanged(this)
      ensures HeaderPresent(header) && AuthorizeUser(header, verify).Unauthorized? ==>
        response == Response(401, ErrJson) && unchanged(this)
      ensures AuthorizeUser(header, verify).Authorized? && MissingFields(body) != "" ==>
        response == Response(400, Text(InvalidPut + MissingFields(body))) && unchanged(this)
      ensures AuthorizeUser(header, verify).Authorized? && MissingFields(body) == ""
              && (writeFails || !Storable(SanitizeRecipePostPut(body, toDate))) ==>
        response == Response(400, ErrText) && unchanged(this)
      ensures AuthorizeUser(header, verify).Authorized? && MissingFields(body) == ""
              && !writeFails && Storable(SanitizeRecipePostPut(body, toDate)) ==>
        && response == Response(200, Json(Obj(map["id" := Str(id)])))
        && View() == Apply(old(View()), Set(id, SanitizeRecipePostPut(body, toDate)))
        && id in recipes && recipes[id] == SanitizeRecipePostPut(body, toDate)
      ensures objects == old(objects)
      ensures old(Valid()) ==> Valid()
    {
      if !HeaderPresent(header) {
        return Response(401, Json(Str(MissingHeader)));
      }
      if AuthorizeUser(header, verify).Unauthorized? {
        return Response(401, ErrJson);
      }
      var missingFields := ValidateRecipePostPut(body);
      if missingFields != "" {
        return Response(400, Text(InvalidPut + missingFields));
      }
      var recipe := SanitizeRecipePostPut(body, toDate);
      if writeFails || !Storable(recipe) {
        return Response(400, ErrText);
      }
      SetDocument(id, recipe);
      response := Response(200, Json(Obj(map["id" := Str(id)])));
    }

    /** `DELETE /recipes/:id`; deleting a missing document succeeds. */
    method DeleteRecipe(header: Option<string>, id: string, verify: Option<string> -> bool,
                        decode: Value -> string, deleteFails: bool) returns (response: Response)
      modifies this
      ensures !HeaderPresent(header) ==>
        response == Response(401, Json(Str(MissingHeader))) && unchanged(this)
      ensures HeaderPresent(header) && AuthorizeUser(header, verify).Unauthorized? ==>
        response == Response(401, ErrJson) && unchanged(this)
      ensures AuthorizeUser(header, verify).Authorized? && deleteFails ==>
        response == Response(400, ErrText) && unchanged(this)
      ensures AuthorizeUser(header, verify).Authorized? && !deleteFails ==>
        response == Response(200, NoBody) && View() == Apply(old(View()), Delete(id)) && id !in recipes
      ensures AuthorizeUser(header, verify).Authorized? && !deleteFails && id in old(recipes)
              && Truthy(Field(old(recipes)[id], "imageUrl")) ==>
        objects == old(objects) - {StoragePath(decode(Field(old(recipes)[id], "imageUrl")))}
      ensures AuthorizeUser(header, verify).Authorized? && !deleteFails
              && (id !in old(recipes) || !Truthy(Field(old(recipes)[id], "imageUrl"))) ==>
        objects == old(objects)
      ensures old(Valid()) ==> Valid()
    {
      if !HeaderPresent(header) {
        return Response(401, Json(Str(MissingHeader)));
      }
      if AuthorizeUser(header, verify).Unauthorized? {
        return Response(401, ErrJson);
      }
      if deleteFails {
        return Response(400, ErrText);
      }
      var _ := DeleteDocument(id, decode);
      response := Response(200, NoBody);
    }

    /** `GET /recipes`. The caller is authorized when `authorizeUser` succeeds;
        `order` is the collection in the order the query's `orderBy` gives, and
        `queryFails` says the query is rejected. */
    method ListRecipes(header: Option<string>, verify: Option<string> -> bool, p: ListParams,
                       order: seq<string>, queryFails: bool) returns (response: Response)
      requires ListsKeys(order, recipes)
      ensures var isAuth := AuthorizeUser(header, verify).Authorized?;
        var fetched := FlattenAll(RunQuery(ListQuery(isAuth, p), RowsOf(recipes, order)));
        response ==
          if queryFails || fetched.None? then Response(400, ErrJson)
          else Response(200, Payload(RecipeCount(isAuth, View().counts), fetched.value))
      ensures response.status == 200 && AuthorizeUser(header, verify).Unauthorized? ==>
        response.body.Payload? &&
        forall d :: d in response.body.documents ==> "isPublished" in d && d["isPublished"] == Bool(true)
      ensures response.status == 200 && Valid() ==>
        response.body.Payload? &&
        response.body.recipeCount ==
          if AuthorizeUser(header, verify).Authorized? then |recipes.Keys| else |PublishedIds(recipes)|
    {
      var isAuth := false;
      if AuthorizeUser(header, verify).Authorized? {
        isAuth := true;
      }
      var collectionRef := BuildListQuery(isAuth, p);
      var recipeCount := 0;
      var countDoc := if isAuth then allCount else publishedCount;
      if countDoc.Some? {
        recipeCount := countDoc.value;
      }
      if queryFails {
        return Response(400, ErrJson);
      }
      var rows := RowsOf(recipes, order);
      var fetchedRecipes := FlattenAll(RunQuery(collectionRef, rows));
      if fetchedRecipes.None? {
        return Response(400, ErrJson);
      }
      if !isAuth {
        UnauthorizedListingPublished(p, rows);
      }
      if Valid() {
        RecipeCountIsTrueCount(isAuth, View());
      }
      response := Response(200, Payload(recipeCount, fetchedRecipes.value));
    }
  }
}
