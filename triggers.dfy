/**
  The decision rules of the Firestore triggers and the scheduled publisher:
  how the two recipe counters react to a created, deleted or updated recipe,
  which storage object an image URL names, and which recipes the daily run
  publishes. The class in module Backend performs these steps on its state.
 */
module Triggers {
  import opened Values

  // ---------------------------------------------------------------------------
  // Counters
  // ---------------------------------------------------------------------------

  /** The `count` of the counter documents `recipeCounts/all` and
      `recipeCounts/published`; None while a document does not exist. */
  datatype Counts = Counts(all: Option<int>, published: Option<int>)

  /** `if (recipe.isPublished)`. */
  predicate IsPublishedDoc(d: Doc) {
    Truthy(Field(d, "isPublished"))
  }

  /** 1 for a published recipe, 0 otherwise. */
  function Indicator(d: Doc): (n: int)
    ensures n == 1 <==> IsPublishedDoc(d)
    ensures n == 0 <==> !IsPublishedDoc(d)
  {
    if IsPublishedDoc(d) then 1 else 0
  }

  /** How the published count moves when a recipe changes from `before` to
      `after`, as a reference definition: the change of the indicator. */
  function Delta(before: Doc, after: Doc): int {
    Indicator(after) - Indicator(before)
  }

  /** An existing counter document is incremented by `delta`; a missing one is
      created holding `initial`. */
  function Bump(count: Option<int>, delta: int, initial: int): (r: Option<int>)
    ensures r.Some?
    ensures count.Some? ==> r.value == count.value + delta
    ensures count.None? ==> r.value == initial
  {
    Some(if count.Some? then count.value + delta else initial)
  }

  /** `onCreateRecipe`. */
  function AfterCreate(c: Counts, recipe: Doc): (r: Counts)
    ensures r.all == Bump(c.all, 1, 1)
    ensures r.published == if IsPublishedDoc(recipe) then Bump(c.published, 1, 1) else c.published
  {
    Counts(Bump(c.all, 1, 1), if IsPublishedDoc(recipe) then Bump(c.published, 1, 1) else c.published)
  }

  /** `onDeleteRecipe`, counter part. */
  function AfterDelete(c: Counts, recipe: Doc): (r: Counts)
    ensures r.all == Bump(c.all, -1, 0)
    ensures r.published == if IsPublishedDoc(recipe) then Bump(c.published, -1, 0) else c.published
  {
    Counts(Bump(c.all, -1, 0), if IsPublishedDoc(recipe) then Bump(c.published, -1, 0) else c.published)
  }

  /** `onUpdateRecipe`: only the published count moves, by the delta; a missing
      document is created holding the delta when positive, 0 otherwise. */
  function AfterUpdate(c: Counts, before: Doc, after: Doc): (r: Counts)
    ensures r.all == c.all
    ensures Delta(before, after) == 0 ==> r == c
    ensures Delta(before, after) != 0 ==>
      r.published == Bump(c.published, Delta(before, after), if Delta(before, after) > 0 then Delta(before, after) else 0)
  {
    var delta := Delta(before, after);
    if delta == 0 then c
    else c.(published := Bump(c.published, delta, if delta > 0 then delta else 0))
  }

  /** The delta is +1 exactly for unpublished to published, -1 exactly for
      published to unpublished, and 0 otherwise. */
  lemma DeltaCases(before: Doc, after: Doc)
    ensures Delta(before, after) == 1 <==> !IsPublishedDoc(before) && IsPublishedDoc(after)
    ensures Delta(before, after) == -1 <==> IsPublishedDoc(before) && !IsPublishedDoc(after)
    ensures Delta(before, after) == 0 <==> (IsPublishedDoc(before) <==> IsPublishedDoc(after))
  {
  }

  // ---------------------------------------------------------------------------
  // The recipe collection and its writes
  // ---------------------------------------------------------------------------

  /** The collection `recipes` together with the two counters. */
  datatype Db = Db(recipes: map<string, Doc>, counts: Counts)

  /** A write to `recipes/{id}`: a whole-document `set` or a `delete`. */
  datatype Write = Set(id: string, doc: Doc) | Delete(id: string)

  /** Firestore accepts a document only when none of its fields holds
      `undefined` (the client's `ignoreUndefinedProperties` setting is off). */
  predicate Storable(d: Doc) {
    forall k :: k in d ==> d[k] != Undefined
  }

  /** A write followed by the trigger it fires: `set` on an existing document
      fires `onUpdate`, on a new one `onCreate`; `delete` fires `onDelete` only
      when the document existed. */
  function Apply(db: Db, w: Write): Db {
    match w
    case Set(id, doc) =>
      if id in db.recipes then Db(db.recipes[id := doc], AfterUpdate(db.counts, db.recipes[id], doc))
      else Db(db.recipes[id := doc], AfterCreate(db.counts, doc))
    case Delete(id) =>
      if id in db.recipes then Db(db.recipes - {id}, AfterDelete(db.counts, db.recipes[id]))
      else db
  }

  /** Writes applied one at a time, each with its trigger. */
  function ApplyAll(db: Db, ws: seq<Write>): Db
    decreases |ws|
  {
    if ws == [] then db else ApplyAll(Apply(db, ws[0]), ws[1..])
  }

  /** The ids of the published recipes. */
  ghost function PublishedIds(recipes: map<string, Doc>): set<string> {
    set id | id in recipes && IsPublishedDoc(recipes[id])
  }

  /** A counter agrees with a true count `n` when it holds `n`, or when its
      document does not exist and `n` is 0 (a fresh deployment). */
  predicate Agrees(count: Option<int>, n: nat) {
    count == Some(n) || (count.None? && n == 0)
  }

  /** Both counters agree with the collection. */
  ghost predicate CountsAgree(db: Db) {
    && Agrees(db.counts.all, |db.recipes.Keys|)
    && Agrees(db.counts.published, |PublishedIds(db.recipes)|)
  }

  /** How a `set` changes the published ids. */
  lemma PublishedAfterSet(recipes: map<string, Doc>, id: string, doc: Doc)
    ensures PublishedIds(recipes[id := doc]) ==
      (PublishedIds(recipes) - {id}) + (if IsPublishedDoc(doc) then {id} else {})
  {
  }

  /** How a `delete` changes the published ids. */
  lemma PublishedAfterDelete(recipes: map<string, Doc>, id: string)
    ensures PublishedIds(recipes - {id}) == PublishedIds(recipes) - {id}
  {
  }

  /** How a `set` changes the number of recipes. */
  lemma SizeAfterSet(recipes: map<string, Doc>, id: string, doc: Doc)
    ensures |recipes[id := doc].Keys| == |recipes.Keys| + (if id in recipes then 0 else 1)
  {
    if id in recipes {
      assert recipes[id := doc].Keys == recipes.Keys;
    } else {
      assert recipes[id := doc].Keys == recipes.Keys + {id};
    }
  }

  /** Removing an element shrinks a set by one exactly when it was there. */
  lemma CardWithout<T>(s: set<T>, x: T)
    ensures |s - {x}| == |s| - (if x in s then 1 else 0)
  {
    if x !in s {
      assert s - {x} == s;
    }
  }

  /** Adding an element that is not there grows a set by one. */
  lemma CardWithFresh<T>(s: set<T>, x: T, add: bool)
    requires x !in s
    ensures |s + (if add then {x} else {})| == |s| + (if add then 1 else 0)
  {
    if !add {
      assert s + {} == s;
    }
  }

  /** How a `set` changes the number of published recipes. */
  lemma PublishedCountAfterSet(recipes: map<string, Doc>, id: string, doc: Doc)
    ensures |PublishedIds(recipes[id := doc])| ==
      |PublishedIds(recipes)| - (if id in recipes then Indicator(recipes[id]) else 0) + Indicator(doc)
  {
    PublishedAfterSet(recipes, id, doc);
    var p := PublishedIds(recipes);
    CardWithout(p, id);
    assert id in p <==> id in recipes && Indicator(recipes[id]) == 1;
    CardWithFresh(p - {id}, id, IsPublishedDoc(doc));
  }

  /** A `set` of a new document on a store that agrees keeps it agreeing. */
  lemma CreatePreservesAgreement(db: Db, id: string, doc: Doc)
    requires CountsAgree(db) && id !in db.recipes
    ensures CountsAgree(Apply(db, Set(id, doc)))
  {
    SizeAfterSet(db.recipes, id, doc);
    PublishedCountAfterSet(db.recipes, id, doc);
  }

  /** A `set` over an existing document keeps agreement. */
  lemma UpdatePreservesAgreement(db: Db, id: string, doc: Doc)
    requires CountsAgree(db) && id in db.recipes
    ensures CountsAgree(Apply(db, Set(id, doc)))
  {
    SizeAfterSet(db.recipes, id, doc);
    PublishedCountAfterSet(db.recipes, id, doc);
  }

  /** A `delete` keeps agreement. */
  lemma DeletePreservesAgreement(db: Db, id: string)
    requires CountsAgree(db)
    ensures CountsAgree(Apply(db, Delete(id)))
  {
    var m := db.recipes;
    if id in m {
      assert (m - {id}).Keys == m.Keys - {id};
      PublishedAfterDelete(m, id);
      var p := PublishedIds(m);
      if IsPublishedDoc(m[id]) {
        assert id in p;
      } else {
        assert id !in p;
        assert p - {id} == p;
      }
    }
  }

  /** Any single write, with its trigger, keeps the counters equal to the true
      counts. */
  lemma ApplyPreservesAgreement(db: Db, w: Write)
    requires CountsAgree(db)
    ensures CountsAgree(Apply(db, w))
  {
    match w
    case Set(id, doc) =>
      if id in db.recipes {
        UpdatePreservesAgreement(db, id, doc);
      } else {
        CreatePreservesAgreement(db, id, doc);
      }
    case Delete(id) =>
      DeletePreservesAgreement(db, id);
  }

  /** Any sequence of writes, applied one at a time, keeps agreement. */
  lemma {:induction false} ApplyAllPreservesAgreement(db: Db, ws: seq<Write>)
    requires CountsAgree(db)
    ensures CountsAgree(ApplyAll(db, ws))
    decreases |ws|
  {
    if ws != [] {
      ApplyPreservesAgreement(db, ws[0]);
      ApplyAllPreservesAgreement(Apply(db, ws[0]), ws[1..]);
    }
  }

  /** The empty collection with no counter documents. */
  const Fresh: Db := Db(map[], Counts(None, None))

  /** From a fresh deployment the counters always agree with the collection. */
  lemma FromFreshAlwaysAgrees(ws: seq<Write>)
    ensures CountsAgree(ApplyAll(Fresh, ws))
  {
    assert PublishedIds(Fresh.recipes) == {};
    ApplyAllPreservesAgreement(Fresh, ws);
  }

  /** Creating a recipe and deleting it again restores the store, when the
      counter documents it touches already exist. */
  lemma CreateThenDeleteRestores(db: Db, id: string, doc: Doc)
    requires id !in db.recipes
    requires db.counts.all.Some?
    requires IsPublishedDoc(doc) ==> db.counts.published.Some?
    ensures Apply(Apply(db, Set(id, doc)), Delete(id)) == db
  {
    assert db.recipes[id := doc] - {id} == db.recipes;
  }

  // ---------------------------------------------------------------------------
  // Storage path of an image URL
  // ---------------------------------------------------------------------------

  /** `pat` occurs in `s` at index `i`. */
  predicate OccursAt(s: string, pat: string, i: int) {
    0 <= i && i + |pat| <= |s| && s[i..i + |pat|] == pat
  }

  /** The first index from `i` on where `pat` occurs, -1 when there is none. */
  function IndexOfFrom(s: string, pat: string, i: nat): (r: int)
    requires i <= |s|
    ensures r == -1 || (i <= r && OccursAt(s, pat, r))
    ensures r == -1 ==> forall j :: i <= j && OccursAt(s, pat, j) ==> false
    ensures r != -1 ==> forall j :: i <= j < r ==> !OccursAt(s, pat, j)
    decreases |s| - i
  {
    if i + |pat| > |s| then -1
    else if s[i..i + |pat|] == pat then i
    else IndexOfFrom(s, pat, i + 1)
  }

  /** `s.indexOf(pat)`: the first index where `pat` occurs, -1 when it does
      not occur. */
  function IndexOf(s: string, pat: string): (r: int)
    ensures r == -1 <==> forall j :: !OccursAt(s, pat, j)
    ensures r != -1 ==> OccursAt(s, pat, r) && forall j :: 0 <= j < r ==> !OccursAt(s, pat, j)
  {
    IndexOfFrom(s, pat, 0)
  }

  /** An occurrence with none before it is the one `indexOf` finds. */
  lemma FirstOccurrence(s: string, pat: string, i: int)
    requires OccursAt(s, pat, i)
    requires forall j :: 0 <= j < i ==> !OccursAt(s, pat, j)
    ensures IndexOf(s, pat) == i
  {
    var r := IndexOf(s, pat);
    assert r != -1;
    assert !(r < i);
  }

  function Clamp(i: int, n: nat): (r: nat)
    ensures r <= n
  {
    if i < 0 then 0 else if i > n then n else i
  }

  /** `s.substring(start, end)`: both ends are clamped to the string and
      swapped when the start is the larger. */
  function Substring(s: string, start: int, end: int): (r: string)
    ensures 0 <= start <= end <= |s| ==> r == s[start..end]
    ensures 0 <= end <= start <= |s| ==> r == s[end..start]
  {
    var a, b := Clamp(start, |s|), Clamp(end, |s|);
    if a <= b then s[a..b] else s[b..a]
  }

  const ObjectMarker := "/o/"

  /** The storage path `onDeleteRecipe` derives from a decoded image URL. */
  function StoragePath(decodedUrl: string): string {
    Substring(decodedUrl, IndexOf(decodedUrl, ObjectMarker) + 3, IndexOf(decodedUrl, "?"))
  }

  /** When `/o/` occurs and the first `?` comes after it, the path is the text
      strictly between them. */
  lemma PathBetweenMarkers(decodedUrl: string)
    requires IndexOf(decodedUrl, ObjectMarker) != -1
    requires IndexOf(decodedUrl, ObjectMarker) + 3 <= IndexOf(decodedUrl, "?")
    ensures StoragePath(decodedUrl) ==
      decodedUrl[IndexOf(decodedUrl, ObjectMarker) + 3..IndexOf(decodedUrl, "?")]
  {
  }

  /** For a URL laid out as `prefix/o/path?query`, where `/o/` first occurs
      after `prefix` and neither `prefix` nor `path` holds a `?`, the storage
      path is `path`. */
  lemma StoragePathOfUrl(prefix: string, path: string, query: string)
    requires forall j :: 0 <= j < |prefix| ==> !OccursAt(prefix + ObjectMarker + path + "?" + query, ObjectMarker, j)
    requires '?' !in prefix && '?' !in path
    ensures StoragePath(prefix + ObjectMarker + path + "?" + query) == path
  {
    var url := prefix + ObjectMarker + path + "?" + query;
    var i, e := |prefix|, |prefix| + 3 + |path|;
    assert url[i..i + 3] == ObjectMarker;
    FirstOccurrence(url, ObjectMarker, i);
    assert url[e..e + 1] == "?";
    forall j | 0 <= j < e
      ensures !OccursAt(url, "?", j)
    {
      assert url[j..j + 1] == [url[j]];
      if j < i {
        assert url[j] == prefix[j];
      } else if j < i + 3 {
        assert url[j] == ObjectMarker[j - i];
      } else {
        assert url[j] == path[j - i - 3];
      }
    }
    FirstOccurrence(url, "?", e);
    assert url[i + 3..e] == path;
  }

  // ---------------------------------------------------------------------------
  // The daily publisher
  // ---------------------------------------------------------------------------

  /** `where("isPublished", "==", false)`: strict equality with `false`. */
  predicate Unpublished(d: Doc) {
    Field(d, "isPublished") == Bool(false)
  }

  /** The number `<=` converts an operand to, for the operands modelled: a
      number is itself, `null` is 0 and a boolean is 0 or 1. None stands for
      NaN, which `undefined` and an object without `valueOf` become and which
      compares false; strings and arrays are not converted here. */
  function ComparedNumber(v: Value): Option<int> {
    match v
    case Num(n) => Some(n)
    case Null => Some(0)
    case Bool(b) => Some(if b then 1 else 0)
    case _ => None
  }

  /** `data.publishDate._seconds <= Date.now() / 1000`, with the clock in
      integer milliseconds. An absent or null `publishDate` throws, which ends
      that document's callback; otherwise `_seconds` is compared as the number
      `<=` converts it to. */
  predicate Reached(publishDate: Value, nowMs: int) {
    && publishDate != Undefined
    && publishDate != Null
    && ComparedNumber(Get(publishDate, "_seconds")).Some?
    && ComparedNumber(Get(publishDate, "_seconds")).value * 1000 <= nowMs
  }

  /** A Timestamp's `_seconds` is reached once the clock passes it; a `null` or
      `false` one at any time from 0 on, a missing one never. */
  lemma ReachedCases(seconds: Value, nowMs: int)
    ensures seconds.Num? ==>
      (Reached(Obj(map["_seconds" := seconds]), nowMs) <==> seconds.n * 1000 <= nowMs)
    ensures seconds == Null || seconds == Bool(false) ==>
      (Reached(Obj(map["_seconds" := seconds]), nowMs) <==> 0 <= nowMs)
    ensures !Reached(Obj(map[]), nowMs)
  {
  }

  /** A recipe the daily run publishes. */
  predicate Due(d: Doc, nowMs: int) {
    Unpublished(d) && Reached(Field(d, "publishDate"), nowMs)
  }

  /** `set({ isPublished: true }, { merge: true })`: only `isPublished` changes. */
  function MergePublished(d: Doc): (r: Doc)
    ensures r.Keys == d.Keys + {"isPublished"}
    ensures r["isPublished"] == Bool(true)
    ensures forall k :: k in d && k != "isPublished" ==> r[k] == d[k]
  {
    d["isPublished" := Bool(true)]
  }

  /** The collection once the due recipes among `ids` are published. */
  function PublishAmong(recipes: map<string, Doc>, ids: set<string>, nowMs: int): map<string, Doc> {
    map id | id in recipes :: if id in ids && Due(recipes[id], nowMs) then MergePublished(recipes[id]) else recipes[id]
  }

  /** The collection after the daily run. */
  function PublishDue(recipes: map<string, Doc>, nowMs: int): map<string, Doc> {
    PublishAmong(recipes, recipes.Keys, nowMs)
  }

  /** The due recipes among `ids`. */
  function DueAmong(recipes: map<string, Doc>, ids: set<string>, nowMs: int): set<string> {
    set id | id in ids && id in recipes && Due(recipes[id], nowMs)
  }

  /** The recipes the daily run publishes. */
  function DueIds(recipes: map<string, Doc>, nowMs: int): set<string> {
    DueAmong(recipes, recipes.Keys, nowMs)
  }

  /** The `published` counter after `n` recipes went from unpublished to
      published: each merge fires `onUpdate` with delta 1. */
  function AfterPublishing(count: Option<int>, n: nat): Option<int> {
    if n == 0 then count else Bump(count, n, n)
  }

  /** One more publication is one more `onUpdate` with delta 1. */
  lemma AfterPublishingStep(count: Option<int>, n: nat)
    ensures AfterPublishing(count, n + 1) == Bump(AfterPublishing(count, n), 1, 1)
  {
  }

  /** Merging `isPublished: true` into an unpublished recipe is an update whose
      trigger adds exactly 1 to `published` and leaves `all` alone. */
  lemma PublishIsUpdateByOne(c: Counts, d: Doc)
    requires Unpublished(d)
    ensures Delta(d, MergePublished(d)) == 1
    ensures AfterUpdate(c, d, MergePublished(d)) == c.(published := Bump(c.published, 1, 1))
  {
    assert Field(MergePublished(d), "isPublished") == Bool(true);
  }

  /** Handling one more recipe adds it to the due set exactly when it is due. */
  lemma DueAmongStep(recipes: map<string, Doc>, done: set<string>, id: string, nowMs: int)
    requires id in recipes && id !in done
    ensures |DueAmong(recipes, done + {id}, nowMs)| ==
      |DueAmong(recipes, done, nowMs)| + (if Due(recipes[id], nowMs) then 1 else 0)
  {
    var before := DueAmong(recipes, done, nowMs);
    var add := Due(recipes[id], nowMs);
    assert DueAmong(recipes, done + {id}, nowMs) == before + (if add then {id} else {});
    CardWithFresh(before, id, add);
  }

  /** Every due recipe is unpublished, so covering the unpublished ones covers
      every due one. */
  lemma DueAmongUnpublished(recipes: map<string, Doc>, ids: set<string>, nowMs: int)
    requires forall id :: id in recipes && Unpublished(recipes[id]) ==> id in ids
    ensures DueAmong(recipes, ids, nowMs) == DueIds(recipes, nowMs)
  {
  }

  /** The run turns exactly the due recipes, none of them published before,
      into published ones; so `published` grows by the number of due ones. */
  lemma PublishDuePublishedIds(recipes: map<string, Doc>, nowMs: int)
    ensures PublishedIds(PublishDue(recipes, nowMs)) == PublishedIds(recipes) + DueIds(recipes, nowMs)
    ensures PublishedIds(recipes) !! DueIds(recipes, nowMs)
  {
    var after := PublishDue(recipes, nowMs);
    forall id | id in recipes
      ensures id in PublishedIds(after) <==> id in PublishedIds(recipes) || id in DueIds(recipes, nowMs)
    {
      PublishAmongAt(recipes, recipes.Keys, id, nowMs);
      if Due(recipes[id], nowMs) {
        assert Field(after[id], "isPublished") == Bool(true);
      }
    }
  }

  /** Handling one more id publishes it when due and changes nothing else. */
  lemma PublishAmongAt(recipes: map<string, Doc>, ids: set<string>, k: string, nowMs: int)
    requires k in recipes
    ensures PublishAmong(recipes, ids, nowMs).Keys == recipes.Keys
    ensures PublishAmong(recipes, ids, nowMs)[k] ==
      if k in ids && Due(recipes[k], nowMs) then MergePublished(recipes[k]) else recipes[k]
  {
  }

  lemma PublishAmongDue(recipes: map<string, Doc>, done: set<string>, id: string, nowMs: int)
    requires id in recipes && id !in done && Due(recipes[id], nowMs)
    ensures PublishAmong(recipes, done + {id}, nowMs) ==
      PublishAmong(recipes, done, nowMs)[id := MergePublished(recipes[id])]
  {
    var current, next := PublishAmong(recipes, done, nowMs), PublishAmong(recipes, done + {id}, nowMs);
    var expected := current[id := MergePublished(recipes[id])];
    forall k | k in recipes
      ensures k in expected && next[k] == expected[k]
    {
      PublishAmongAt(recipes, done, k, nowMs);
      PublishAmongAt(recipes, done + {id}, k, nowMs);
    }
    assert next.Keys == expected.Keys;
  }

  lemma PublishAmongNotDue(recipes: map<string, Doc>, done: set<string>, id: string, nowMs: int)
    requires id in recipes && id !in done && !Due(recipes[id], nowMs)
    ensures PublishAmong(recipes, done + {id}, nowMs) == PublishAmong(recipes, done, nowMs)
  {
    var current, next := PublishAmong(recipes, done, nowMs), PublishAmong(recipes, done + {id}, nowMs);
    forall k | k in recipes
      ensures k in current && next[k] == current[k]
    {
      PublishAmongAt(recipes, done, k, nowMs);
      PublishAmongAt(recipes, done + {id}, k, nowMs);
    }
    assert next.Keys == current.Keys;
  }

  /** Taking in one more id changes at most that id's document. */
  lemma PublishAmongStep(recipes: map<string, Doc>, done: set<string>, id: string, nowMs: int)
    requires id in recipes && id !in done
    ensures PublishAmong(recipes, done, nowMs)[id] == recipes[id]
    ensures PublishAmong(recipes, done + {id}, nowMs) ==
      if Due(recipes[id], nowMs) then PublishAmong(recipes, done, nowMs)[id := MergePublished(recipes[id])]
      else PublishAmong(recipes, done, nowMs)
  {
    PublishAmongAt(recipes, done, id, nowMs);
    if Due(recipes[id], nowMs) {
      PublishAmongDue(recipes, done, id, nowMs);
    } else {
      PublishAmongNotDue(recipes, done, id, nowMs);
    }
  }

  /** Handling every unpublished recipe is the whole daily run. */
  lemma PublishAmongUnpublished(recipes: map<string, Doc>, ids: set<string>, nowMs: int)
    requires forall id :: id in recipes && Unpublished(recipes[id]) ==> id in ids
    ensures PublishAmong(recipes, ids, nowMs) == PublishDue(recipes, nowMs)
  {
  }

  /** The daily run keeps every id; it publishes exactly the due recipes,
      changing nothing else in them, and leaves the others as they were. */
  lemma PublishDueRule(recipes: map<string, Doc>, nowMs: int, id: string)
    ensures PublishDue(recipes, nowMs).Keys == recipes.Keys
    ensures id in recipes && Due(recipes[id], nowMs) ==>
      var r := PublishDue(recipes, nowMs)[id];
      r["isPublished"] == Bool(true) && forall k :: k in recipes[id] && k != "isPublished" ==> r[k] == recipes[id][k]
    ensures id in recipes && !Due(recipes[id], nowMs) ==> PublishDue(recipes, nowMs)[id] == recipes[id]
  {
  }

  /** A second run at the same time changes nothing. */
  lemma PublishDueIdempotent(recipes: map<string, Doc>, nowMs: int)
    ensures PublishDue(PublishDue(recipes, nowMs), nowMs) == PublishDue(recipes, nowMs)
  {
    var once := PublishDue(recipes, nowMs);
    forall id | id in once
      ensures !Due(once[id], nowMs)
    {
      if Due(recipes[id], nowMs) {
        assert once[id]["isPublished"] == Bool(true);
      }
    }
  }

  /** No recipe stays due after the run. */
  lemma NothingDueAfterRun(recipes: map<string, Doc>, nowMs: int, id: string)
    requires id in PublishDue(recipes, nowMs)
    ensures !Due(PublishDue(recipes, nowMs)[id], nowMs)
  {
    if Due(recipes[id], nowMs) {
      assert PublishDue(recipes, nowMs)[id]["isPublished"] == Bool(true);
    }
  }
}
