/**
  The request helpers of the recipe API: extracting the bearer token from an
  `Authorization` header, validating a recipe body and projecting it onto the
  seven stored fields.
 */
module Utilities {
  import opened Values

  // ---------------------------------------------------------------------------
  // Authorization header
  // ---------------------------------------------------------------------------

  /** The message thrown when no header is given. */
  const NoAuthorizationMessage := "no authorization provided!"

  /** Outcome of `authorizeUser`: the token handed to the identity service, or
      the message of the error thrown (None: the identity service's own
      message, which the model does not know). */
  datatype AuthResult = Authorized(token: Option<string>) | Unauthorized(message: Option<string>)

  /** `if (!authorizationHeader)` fails exactly for an absent or empty header. */
  predicate HeaderPresent(header: Option<string>) {
    header.Some? && header.value != ""
  }

  /** `s.split(" ")`: the pieces between single spaces, empty pieces included. */
  function SplitOnSpace(s: string): (parts: seq<string>)
    ensures |parts| >= 1
    ensures forall i :: 0 <= i < |parts| ==> ' ' !in parts[i]
    decreases |s|
  {
    if s == [] then [""]
    else
      var rest := SplitOnSpace(s[1..]);
      if s[0] == ' ' then [""] + rest
      else [[s[0]] + rest[0]] + rest[1..]
  }

  /** `parts.join(" ")`, the inverse of SplitOnSpace. */
  function JoinWithSpace(parts: seq<string>): string
    requires |parts| >= 1
    decreases |parts|
  {
    if |parts| == 1 then parts[0] else parts[0] + " " + JoinWithSpace(parts[1..])
  }

  /** `authorizationHeader.split(" ")[1]`; None stands for `undefined`. */
  function Token(header: string): Option<string> {
    var parts := SplitOnSpace(header);
    if |parts| >= 2 then Some(parts[1]) else None
  }

  /** `authorizeUser`: a missing header fails with a fixed message; otherwise the
      second space-separated piece is given to the identity service, whose
      verdict is `verify`. */
  function AuthorizeUser(header: Option<string>, verify: Option<string> -> bool): (r: AuthResult)
    ensures !HeaderPresent(header) <==> r == Unauthorized(Some(NoAuthorizationMessage))
    ensures HeaderPresent(header) ==> (r.Authorized? <==> verify(Token(header.value)))
    ensures r.Authorized? ==> r.token == Token(header.value)
  {
    if !HeaderPresent(header) then Unauthorized(Some(NoAuthorizationMessage))
    else
      var token := Token(header.value);
      if verify(token) then Authorized(token) else Unauthorized(None)
  }

  /** Splitting and joining again gives back the header. */
  lemma {:induction false} JoinSplit(s: string)
    ensures JoinWithSpace(SplitOnSpace(s)) == s
    decreases |s|
  {
    if s != [] {
      var rest := SplitOnSpace(s[1..]);
      JoinSplit(s[1..]);
      if s[0] == ' ' {
        assert SplitOnSpace(s) == [""] + rest;
        assert ([""] + rest)[1..] == rest;
        assert s == [' '] + s[1..];
      } else if |rest| == 1 {
        assert s == [s[0]] + s[1..];
      } else {
        var parts := [[s[0]] + rest[0]] + rest[1..];
        assert parts[1..] == rest[1..];
        assert JoinWithSpace(rest) == rest[0] + " " + JoinWithSpace(rest[1..]);
        assert s == [s[0]] + s[1..];
      }
    }
  }

  /** A piece without spaces followed by a space is split off whole. */
  lemma {:induction false} SplitAtFirstSpace(a: string, b: string)
    requires ' ' !in a
    ensures SplitOnSpace(a + " " + b) == [a] + SplitOnSpace(b)
    decreases |a|
  {
    var s := a + " " + b;
    if a == [] {
      assert s[1..] == b;
    } else {
      assert s[1..] == a[1..] + " " + b;
      SplitAtFirstSpace(a[1..], b);
      assert [a[0]] + a[1..] == a;
    }
  }

  /** A string without spaces is one piece. */
  lemma {:induction false} SplitWithoutSpace(b: string)
    requires ' ' !in b
    ensures SplitOnSpace(b) == [b]
    decreases |b|
  {
    if b != [] {
      SplitWithoutSpace(b[1..]);
      assert [b[0]] + b[1..] == b;
    }
  }

  /** A string with a space has at least two pieces. */
  lemma {:induction false} SplitWithSpace(s: string)
    requires ' ' in s
    ensures |SplitOnSpace(s)| >= 2
    decreases |s|
  {
    if s[0] != ' ' {
      assert ' ' in s[1..] by {
        var k :| 0 <= k < |s| && s[k] == ' ';
        assert s[1..][k - 1] == ' ';
      }
      SplitWithSpace(s[1..]);
    }
  }

  /** For a well-formed `"<scheme> <token>"` header the token is exactly the
      text after the space. */
  lemma BearerToken(scheme: string, token: string)
    requires ' ' !in scheme && ' ' !in token
    ensures Token(scheme + " " + token) == Some(token)
  {
    SplitAtFirstSpace(scheme, token);
    SplitWithoutSpace(token);
  }

  /** The token is `undefined` exactly when the header has no space, and it
      never contains a space itself. */
  lemma TokenAbsentIffNoSpace(header: string)
    ensures Token(header) == None <==> ' ' !in header
    ensures Token(header).Some? ==> ' ' !in Token(header).value
  {
    if ' ' in header {
      SplitWithSpace(header);
    } else {
      SplitWithoutSpace(header);
    }
  }

  // ---------------------------------------------------------------------------
  // Recipe validation
  // ---------------------------------------------------------------------------

  /** The fields the validator examines, in the order it examines them. */
  datatype RecipeField = Name | Category | Directions | IsPublished | PublishDate | Ingredients | ImageUrl

  /** The field's property name, which is also what the validator reports. */
  function Key(f: RecipeField): string {
    match f
    case Name => "name"
    case Category => "category"
    case Directions => "directions"
    case IsPublished => "isPublished"
    case PublishDate => "publishDate"
    case Ingredients => "ingredients"
    case ImageUrl => "imageUrl"
  }

  /** The field's place in the validator's order. */
  function Position(f: RecipeField): (k: nat)
    ensures k < 7
  {
    match f
    case Name => 0
    case Category => 1
    case Directions => 2
    case IsPublished => 3
    case PublishDate => 4
    case Ingredients => 5
    case ImageUrl => 6
  }

  /** The field the validator examines at place `k`. */
  function FieldAt(k: nat): (f: RecipeField)
    requires k < 7
    ensures Position(f) == k
  {
    match k
    case 0 => Name
    case 1 => Category
    case 2 => Directions
    case 3 => IsPublished
    case 4 => PublishDate
    case 5 => Ingredients
    case _ => ImageUrl
  }

  /** Each place holds the field placed there. */
  lemma PositionInverse()
    ensures forall f :: FieldAt(Position(f)) == f
  {
    forall f
      ensures FieldAt(Position(f)) == f
    {
      match f
      case Name =>
      case Category =>
      case Directions =>
      case IsPublished =>
      case PublishDate =>
      case Ingredients =>
      case ImageUrl =>
    }
  }

  /** The `isPublished` test as written: `Boolean(x) !== true && Boolean(x) !== false`. */
  predicate IsPublishedInvalid(recipe: Value) {
    var b := Truthy(Get(recipe, "isPublished"));
    b != true && b != false
  }

  /** Whether the validator reports field `f` of a present recipe. */
  predicate Reports(recipe: Value, f: RecipeField) {
    match f
    case IsPublished => IsPublishedInvalid(recipe)
    case Ingredients =>
      var ingredients := Get(recipe, "ingredients");
      !Truthy(ingredients) || Get(ingredients, "length") == Num(0)
    case _ => !Truthy(Get(recipe, Key(f)))
  }

  /** The verdicts of the seven checks, in the validator's order. */
  function Verdicts(recipe: Value): seq<bool> {
    [ Reports(recipe, Name), Reports(recipe, Category), Reports(recipe, Directions),
      Reports(recipe, IsPublished), Reports(recipe, PublishDate), Reports(recipe, Ingredients),
      Reports(recipe, ImageUrl) ]
  }

  /** The verdict at a field's place is whether the validator reports it. */
  lemma VerdictAt(recipe: Value, f: RecipeField)
    ensures |Verdicts(recipe)| == 7 && Verdicts(recipe)[Position(f)] == Reports(recipe, f)
  {
  }

  // Verdict vectors `v` (one verdict per place) and the fields they select.

  /** What the check at place `k` contributes: its field when reported. */
  function Check(v: seq<bool>, k: nat): seq<RecipeField>
    requires |v| == 7 && k < 7
  {
    if v[k] then [FieldAt(k)] else []
  }

  /** The selected fields from place `k` on, in order. */
  function FieldsFrom(v: seq<bool>, k: nat): seq<RecipeField>
    requires |v| == 7 && k <= 7
    decreases 7 - k
  {
    if k == 7 then [] else Check(v, k) + FieldsFrom(v, k + 1)
  }

  /** A field is selected from place `k` on exactly when its place is not
      before `k` and its verdict is true. */
  lemma {:induction false} FieldsFromMembers(v: seq<bool>, k: nat, f: RecipeField)
    requires |v| == 7 && k <= 7
    ensures f in FieldsFrom(v, k) <==> k <= Position(f) && v[Position(f)]
    decreases 7 - k
  {
    if k < 7 {
      FieldsFromMembers(v, k + 1, f);
      PositionInverse();
      assert f in Check(v, k) <==> Position(f) == k && v[k];
    }
  }

  /** The selected fields among the first `k` places, in order. */
  function FieldsBefore(v: seq<bool>, k: nat): seq<RecipeField>
    requires |v| == 7 && k <= 7
  {
    if k == 0 then [] else FieldsBefore(v, k - 1) + Check(v, k - 1)
  }

  /** The names of `fields` run together without separators. */
  function Concat(fields: seq<RecipeField>): string
    decreases |fields|
  {
    if fields == [] then "" else Key(fields[0]) + Concat(fields[1..])
  }

  /** What the check at place `k` adds to the message. */
  function Piece(v: seq<bool>, k: nat): string
    requires |v| == 7 && k < 7
  {
    if v[k] then Key(FieldAt(k)) else ""
  }

  /** The message built by the first `k` checks. */
  function NamesBefore(v: seq<bool>, k: nat): string
    requires |v| == 7 && k <= 7
  {
    if k == 0 then "" else NamesBefore(v, k - 1) + Piece(v, k - 1)
  }

  /** The names of two lists of fields are the names of each, in order. */
  lemma {:induction false} ConcatAppend(a: seq<RecipeField>, b: seq<RecipeField>)
    ensures Concat(a + b) == Concat(a) + Concat(b)
    decreases |a|
  {
    if a != [] {
      assert (a + b)[0] == a[0];
      assert (a + b)[1..] == a[1..] + b;
      ConcatAppend(a[1..], b);
      assert Key(a[0]) + (Concat(a[1..]) + Concat(b)) == (Key(a[0]) + Concat(a[1..])) + Concat(b);
    } else {
      assert a + b == b;
    }
  }

  /** The names of one check's contribution are its piece of the message. */
  lemma ConcatCheck(v: seq<bool>, k: nat)
    requires |v| == 7 && k < 7
    ensures Concat(Check(v, k)) == Piece(v, k)
  {
    if v[k] {
      var f := FieldAt(k);
      assert Concat([f]) == Key(f) + Concat([]);
    }
  }

  /** The message built by the first `k` checks names the fields selected
      among them. */
  lemma {:induction false} NamesBeforeJoin(v: seq<bool>, k: nat)
    requires |v| == 7 && k <= 7
    ensures NamesBefore(v, k) == Concat(FieldsBefore(v, k))
    decreases k
  {
    if k > 0 {
      NamesBeforeJoin(v, k - 1);
      ConcatAppend(FieldsBefore(v, k - 1), Check(v, k - 1));
      ConcatCheck(v, k - 1);
    }
  }

  /** Concatenation of sequences is associative. */
  lemma AppendAssoc<T>(a: seq<T>, b: seq<T>, c: seq<T>)
    ensures (a + b) + c == a + (b + c)
  {
  }

  /** The places before `k` and those from `k` on make up the whole order. */
  lemma {:induction false} BeforeAndFrom(v: seq<bool>, k: nat)
    requires |v| == 7 && k <= 7
    ensures FieldsBefore(v, k) + FieldsFrom(v, k) == FieldsFrom(v, 0)
    decreases k
  {
    if k > 0 {
      BeforeAndFrom(v, k - 1);
      var before, piece, from := FieldsBefore(v, k - 1), Check(v, k - 1), FieldsFrom(v, k);
      assert FieldsBefore(v, k) == before + piece;
      assert FieldsFrom(v, k - 1) == piece + from;
      AppendAssoc(before, piece, from);
    }
  }

  /** After all checks the message names every selected field. */
  lemma NamesComplete(v: seq<bool>)
    requires |v| == 7
    ensures NamesBefore(v, 7) == Concat(FieldsFrom(v, 0))
  {
    NamesBeforeJoin(v, 7);
    BeforeAndFrom(v, 7);
    assert FieldsFrom(v, 7) == [];
    assert FieldsBefore(v, 7) + [] == FieldsBefore(v, 7);
  }

  // The validator itself.

  /** The fields the validator reports for a recipe that is present, in order. */
  function ReportedFields(recipe: Value): seq<RecipeField> {
    FieldsFrom(Verdicts(recipe), 0)
  }

  /** The result of `validateRecipePostPut`, as a specification: `"recipe"` for
      an absent input, otherwise the reported names run together. */
  function MissingFields(recipe: Value): string {
    if !Truthy(recipe) then "recipe" else Concat(ReportedFields(recipe))
  }

  /** A recipe passes when every field other than `isPublished` is truthy and
      the ingredients are not of length 0. */
  predicate Passes(recipe: Value) {
    && Truthy(recipe)
    && Truthy(Get(recipe, "name"))
    && Truthy(Get(recipe, "category"))
    && Truthy(Get(recipe, "directions"))
    && Truthy(Get(recipe, "publishDate"))
    && Truthy(Get(recipe, "ingredients"))
    && Get(Get(recipe, "ingredients"), "length") != Num(0)
    && Truthy(Get(recipe, "imageUrl"))
  }

  /** One of the validator's seven checks: appends the field's name to the
      message when the field fails its test. */
  method CheckField(recipe: Value, f: RecipeField, missingFields: string) returns (r: string)
    requires missingFields == NamesBefore(Verdicts(recipe), Position(f))
    ensures r == NamesBefore(Verdicts(recipe), Position(f) + 1)
    ensures r == if Reports(recipe, f) then missingFields + Key(f) else missingFields
  {
    VerdictAt(recipe, f);
    PositionInverse();
    r := missingFields;
    if Reports(recipe, f) {
      r := r + Key(f);
    }
  }

  /** `validateRecipePostPut`: `"recipe"` for an absent input, otherwise the
      seven checks in order. */
  method ValidateRecipePostPut(newRecipe: Value) returns (missingFields: string)
    ensures missingFields == MissingFields(newRecipe)
  {
    missingFields := "";
    if !Truthy(newRecipe) {
      missingFields := missingFields + "recipe";
      return;
    }
    missingFields := CheckField(newRecipe, Name, missingFields);
    missingFields := CheckField(newRecipe, Category, missingFields);
    missingFields := CheckField(newRecipe, Directions, missingFields);
    missingFields := CheckField(newRecipe, IsPublished, missingFields);
    missingFields := CheckField(newRecipe, PublishDate, missingFields);
    missingFields := CheckField(newRecipe, Ingredients, missingFields);
    missingFields := CheckField(newRecipe, ImageUrl, missingFields);
    NamesComplete(Verdicts(newRecipe));
  }

  /** A field is reported exactly when it fails its own test, whatever the
      other fields hold; `ingredients` when it is falsy or of length 0. */
  lemma FieldReportedIff(recipe: Value, f: RecipeField)
    ensures f in ReportedFields(recipe) <==> Reports(recipe, f)
    ensures Ingredients in ReportedFields(recipe) <==>
      (!Truthy(Get(recipe, "ingredients")) || Get(Get(recipe, "ingredients"), "length") == Num(0))
  {
    var v := Verdicts(recipe);
    VerdictAt(recipe, f);
    VerdictAt(recipe, Ingredients);
    FieldsFromMembers(v, 0, f);
    FieldsFromMembers(v, 0, Ingredients);
  }

  /** A present recipe passes exactly when no field is reported. */
  lemma PassesIffNoneReported(recipe: Value)
    requires Truthy(recipe)
    ensures Passes(recipe) <==> forall f :: !Reports(recipe, f)
  {
    if !Passes(recipe) {
      var f := if !Truthy(Get(recipe, "name")) then Name
        else if !Truthy(Get(recipe, "category")) then Category
        else if !Truthy(Get(recipe, "directions")) then Directions
        else if !Truthy(Get(recipe, "publishDate")) then PublishDate
        else if !Truthy(Get(recipe, "imageUrl")) then ImageUrl
        else Ingredients;
      assert Reports(recipe, f);
    }
  }

  /** The validator's result is empty exactly when the recipe passes; in
      particular a recipe lacking `isPublished` can pass. */
  lemma EmptyIffPasses(recipe: Value)
    ensures MissingFields(recipe) == "" <==> Passes(recipe)
  {
    if Truthy(recipe) {
      var r := ReportedFields(recipe);
      PassesIffNoneReported(recipe);
      forall f
        ensures f in r <==> Reports(recipe, f)
      {
        FieldReportedIff(recipe, f);
      }
      if r != [] {
        assert r[0] in r;
        KeyShape(r[0]);
      }
    }
  }

  /** An absent or falsy input yields exactly `"recipe"`. */
  lemma AbsentRecipe(recipe: Value)
    requires !Truthy(recipe)
    ensures MissingFields(recipe) == "recipe" && !Passes(recipe)
  {
  }

  /** Facts about the seven names: each has at least two letters, none starts
      with `r`, and only `isPublished` has an upper-case `P`. */
  lemma KeyShape(f: RecipeField)
    ensures |Key(f)| >= 2 && Key(f)[0] != 'r'
    ensures f != IsPublished ==> 'P' !in Key(f)
  {
    match f
    case Name => assert Key(f) == ['n', 'a', 'm', 'e'];
    case Category => assert Key(f) == ['c', 'a', 't', 'e', 'g', 'o', 'r', 'y'];
    case Directions => assert Key(f) == ['d', 'i', 'r', 'e', 'c', 't', 'i', 'o', 'n', 's'];
    case IsPublished =>
    case PublishDate => assert Key(f) == ['p', 'u', 'b', 'l', 'i', 's', 'h', 'D', 'a', 't', 'e'];
    case Ingredients => assert Key(f) == ['i', 'n', 'g', 'r', 'e', 'd', 'i', 'e', 'n', 't', 's'];
    case ImageUrl => assert Key(f) == ['i', 'm', 'a', 'g', 'e', 'U', 'r', 'l'];
  }

  /** Different fields differ within their first two letters. */
  lemma KeyStartInjective(f: RecipeField, g: RecipeField)
    requires f != g
    ensures |Key(f)| >= 2 && |Key(g)| >= 2
    ensures Key(f)[0] != Key(g)[0] || Key(f)[1] != Key(g)[1]
  {
    KeyShape(f);
    KeyShape(g);
  }

  /** A character none of the names contain is not in their concatenation. */
  lemma {:induction false} ConcatWithout(fields: seq<RecipeField>, c: char)
    requires forall i :: 0 <= i < |fields| ==> c !in Key(fields[i])
    ensures c !in Concat(fields)
    decreases |fields|
  {
    if fields != [] {
      ConcatWithout(fields[1..], c);
    }
  }

  /** The `isPublished` test can never succeed: the field is never reported,
      and no upper-case `P` ever appears in the validator's result. */
  lemma NeverReportsIsPublished(recipe: Value)
    ensures IsPublished !in ReportedFields(recipe)
    ensures 'P' !in MissingFields(recipe)
  {
    FieldReportedIff(recipe, IsPublished);
    if Truthy(recipe) {
      var r := ReportedFields(recipe);
      forall i | 0 <= i < |r| ensures 'P' !in Key(r[i]) {
        assert r[i] in r;
        KeyShape(r[i]);
      }
      ConcatWithout(r, 'P');
    }
  }

  // ---------------------------------------------------------------------------
  // Reading the validator's message back
  // ---------------------------------------------------------------------------

  /** Reads a message back into fields, trying each field from place `k` on. */
  function ParseFrom(s: string, k: nat): seq<RecipeField>
    requires k <= 7
    decreases 7 - k
  {
    if k == 7 then []
    else
      var name := Key(FieldAt(k));
      if |name| <= |s| && s[..|name|] == name then [FieldAt(k)] + ParseFrom(s[|name|..], k + 1)
      else ParseFrom(s, k + 1)
  }

  /** A message that starts with the name of the field at place `k` is read
      as that field followed by the rest. */
  lemma ParseTake(k: nat, rest: string)
    requires k < 7
    ensures ParseFrom(Key(FieldAt(k)) + rest, k) == [FieldAt(k)] + ParseFrom(rest, k + 1)
  {
    var name := Key(FieldAt(k));
    var s := name + rest;
    assert s[..|name|] == name;
    assert s[|name|..] == rest;
  }

  /** The names of fields that do not start with the field at place `k` are
      not read as that field. */
  lemma ParseSkip(k: nat, fields: seq<RecipeField>)
    requires k < 7
    requires fields == [] || Position(fields[0]) != k
    ensures ParseFrom(Concat(fields), k) == ParseFrom(Concat(fields), k + 1)
  {
    var f := FieldAt(k);
    var name := Key(f);
    var s := Concat(fields);
    if fields != [] {
      KeyStartInjective(f, fields[0]);
      var first := Key(fields[0]);
      assert s == first + Concat(fields[1..]);
      assert s[0] == first[0] && s[1] == first[1];
      assert !(|name| <= |s| && s[..|name|] == name);
    } else {
      KeyShape(f);
    }
  }

  /** A selected field at place `k` is read back in front of the rest. */
  lemma RoundTripTake(v: seq<bool>, k: nat)
    requires |v| == 7 && k < 7 && v[k]
    requires ParseFrom(Concat(FieldsFrom(v, k + 1)), k + 1) == FieldsFrom(v, k + 1)
    ensures ParseFrom(Concat(FieldsFrom(v, k)), k) == FieldsFrom(v, k)
  {
    var f := FieldAt(k);
    var rest := FieldsFrom(v, k + 1);
    var fields := [f] + rest;
    assert FieldsFrom(v, k) == fields;
    assert fields[0] == f && fields[1..] == rest;
    assert Concat(fields) == Key(f) + Concat(rest);
    ParseTake(k, Concat(rest));
  }

  /** An unselected place `k` reads nothing. */
  lemma RoundTripSkip(v: seq<bool>, k: nat)
    requires |v| == 7 && k < 7 && !v[k]
    requires ParseFrom(Concat(FieldsFrom(v, k + 1)), k + 1) == FieldsFrom(v, k + 1)
    ensures ParseFrom(Concat(FieldsFrom(v, k)), k) == FieldsFrom(v, k)
  {
    var rest := FieldsFrom(v, k + 1);
    assert FieldsFrom(v, k) == rest;
    if rest != [] {
      assert rest[0] in rest;
      FieldsFromMembers(v, k + 1, rest[0]);
    }
    ParseSkip(k, rest);
  }

  /** Reading back the names of the fields selected from place `k` on gives
      those fields. */
  lemma {:induction false} FieldsRoundTrip(v: seq<bool>, k: nat)
    requires |v| == 7 && k <= 7
    ensures ParseFrom(Concat(FieldsFrom(v, k)), k) == FieldsFrom(v, k)
    decreases 7 - k
  {
    if k < 7 {
      FieldsRoundTrip(v, k + 1);
      if v[k] {
        RoundTripTake(v, k);
      } else {
        RoundTripSkip(v, k);
      }
    }
  }

  /** What a validator message says: the input was absent, or these fields. */
  datatype Complaint = NoRecipe | Fields(fields: seq<RecipeField>)

  function ParseMissingFields(message: string): Complaint {
    if message == "recipe" then NoRecipe else Fields(ParseFrom(message, 0))
  }

  /** Although the names are run together without separators, the message
      determines exactly which fields were reported. */
  lemma MessageRoundTrip(recipe: Value)
    ensures ParseMissingFields(MissingFields(recipe)) ==
      if Truthy(recipe) then Fields(ReportedFields(recipe)) else NoRecipe
  {
    if Truthy(recipe) {
      var r := ReportedFields(recipe);
      FieldsRoundTrip(Verdicts(recipe), 0);
      if r != [] {
        KeyShape(r[0]);
        var first := Key(r[0]);
        assert Concat(r) == first + Concat(r[1..]);
        assert Concat(r)[0] == first[0];
        assert "recipe"[0] == 'r';
      }
    }
  }

  /** Two present inputs with the same message have the same reported fields. */
  lemma MessageDeterminesFields(a: Value, b: Value)
    requires Truthy(a) && Truthy(b) && MissingFields(a) == MissingFields(b)
    ensures ReportedFields(a) == ReportedFields(b)
  {
    MessageRoundTrip(a);
    MessageRoundTrip(b);
  }

  // ---------------------------------------------------------------------------
  // Sanitizing
  // ---------------------------------------------------------------------------

  /** The seven fields a stored recipe has. */
  const RecipeKeys: set<string> :=
    {"name", "category", "directions", "isPublished", "publishDate", "ingredients", "imageUrl"}

  /** `sanitizeRecipePostPut`: a fresh record with exactly the seven fields;
      `publishDate` goes through `new Date(...)`, given as `toDate`. */
  function SanitizeRecipePostPut(newRecipe: Value, toDate: Value -> Value): (recipe: Doc)
    ensures recipe.Keys == RecipeKeys
    ensures forall k :: k in RecipeKeys && k != "publishDate" ==> recipe[k] == Get(newRecipe, k)
    ensures recipe["publishDate"] == toDate(Get(newRecipe, "publishDate"))
  {
    map[
      "name" := Get(newRecipe, "name"),
      "category" := Get(newRecipe, "category"),
      "directions" := Get(newRecipe, "directions"),
      "isPublished" := Get(newRecipe, "isPublished"),
      "publishDate" := toDate(Get(newRecipe, "publishDate")),
      "ingredients" := Get(newRecipe, "ingredients"),
      "imageUrl" := Get(newRecipe, "imageUrl")
    ]
  }

  /** Fields the caller adds beyond the seven are dropped. */
  lemma SanitizeDropsExtraFields(newRecipe: Value, toDate: Value -> Value, k: string)
    requires k !in RecipeKeys
    ensures k !in SanitizeRecipePostPut(newRecipe, toDate)
  {
  }

  /** Sanitizing a sanitized record gives it back, when the date conversion
      leaves an already converted date alone. */
  lemma SanitizeIdempotent(newRecipe: Value, toDate: Value -> Value)
    requires var d := toDate(Get(newRecipe, "publishDate")); toDate(d) == d
    ensures var once := SanitizeRecipePostPut(newRecipe, toDate);
      SanitizeRecipePostPut(Obj(once), toDate) == once
  {
    var once := SanitizeRecipePostPut(newRecipe, toDate);
    var twice := SanitizeRecipePostPut(Obj(once), toDate);
    assert forall k :: k in twice ==> twice[k] == once[k];
  }
}
