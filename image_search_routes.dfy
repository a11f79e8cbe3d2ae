/** The image search route: an uploaded photo is described by an external AI
    model as a comma-separated list of dishes, and the restaurants whose
    cuisines mention any of those dishes are returned. */
module ImageSearchRoutes {
  import opened Wrappers
  import opened JsText
  import opened Http
  import opened RestaurantModel

  /** The uploaded file `foodImage`, kept in memory. */
  datatype Upload = Upload(buffer: seq<bv8>, mimeType: string)

  /** The AI model's answer: its text, or a failed call. */
  datatype AiReply = Reply(text: string) | CallFailed

  /** The model the route asks. */
  const AiModel := "gemini-2.5-pro"

  /** The instruction sent along with the image. */
  const Prompt := "Analyze the food in this image. Return a comma-separated list of the primary dishes you see (e.g., Pizza, Salad, Fries). If no food is identifiable, return an empty response."

  // ---------------------------------------------------------------- reading the reply

  /** `.map(food => food.trim())`. */
  function TrimAll(parts: seq<string>): (out: seq<string>)
    ensures |out| == |parts| && forall i :: 0 <= i < |parts| ==> out[i] == Trim(parts[i])
  {
    if |parts| == 0 then [] else TrimAll(parts[..|parts| - 1]) + [Trim(parts[|parts| - 1])]
  }

  /** `.filter(Boolean)` on strings: the non-empty ones, in order. */
  function Compact(parts: seq<string>): (out: seq<string>)
    ensures |out| <= |parts|
    ensures forall s :: s in out <==> s in parts && s != ""
  {
    if |parts| == 0 then []
    else
      var init := Compact(parts[..|parts| - 1]);
      var last := parts[|parts| - 1];
      assert parts == parts[..|parts| - 1] + [last];
      if last != "" then init + [last] else init
  }

  /** `filter` keeps order: compacting a concatenation compacts each half. */
  lemma {:induction false} CompactAppend(a: seq<string>, b: seq<string>)
    ensures Compact(a + b) == Compact(a) + Compact(b)
  {
    if |b| > 0 {
      var n := |b| - 1;
      CompactAppend(a, b[..n]);
      assert (a + b)[..|a + b| - 1] == a + b[..n];
      assert (a + b)[|a + b| - 1] == b[n];
    } else {
      assert a + b == a;
    }
  }

  /** A dish name as the route keeps it: not empty, no surrounding
      whitespace, no comma. */
  predicate IsFood(f: string) {
    f != [] && !IsWhitespace(f[0]) && !IsWhitespace(f[|f| - 1]) && ',' !in f
  }

  /** A trimmed piece of a comma-free string is itself comma-free. */
  lemma TrimKeepsCommaFree(s: string)
    requires ',' !in s
    ensures ',' !in Trim(s)
  {
    var r := Trim(s);
    var i := LeadingSpace(s);
    TrimIsMiddle(s);
    forall k | 0 <= k < |r|
      ensures r[k] != ','
    {
      assert r[k] == s[i + k];
    }
  }

  /** `text.split(",").map(food => food.trim()).filter(Boolean)`: every
      detected food is a well-formed dish name, and there are no more of
      them than comma-separated pieces. */
  function ParseFoods(text: string): (foods: seq<string>)
    ensures forall f :: f in foods ==> IsFood(f)
    ensures |foods| <= Count(text, ',') + 1
  {
    var parts := Split(text, ',');
    TrimmedPiecesAreFoods(parts);
    Compact(TrimAll(parts))
  }

  /** Trimming comma-free pieces leaves dish names and empty strings only. */
  lemma TrimmedPiecesAreFoods(parts: seq<string>)
    requires forall k :: 0 <= k < |parts| ==> ',' !in parts[k]
    ensures forall f :: f in TrimAll(parts) && f != "" ==> IsFood(f)
  {
    var trimmed := TrimAll(parts);
    forall f | f in trimmed && f != ""
      ensures IsFood(f)
    {
      var k :| 0 <= k < |trimmed| && trimmed[k] == f;
      TrimKeepsCommaFree(parts[k]);
    }
  }

  // ---------------------------------------------------------------- when no food is detected

  /** A string is trimmed to nothing exactly when it is all whitespace. */
  lemma TrimEmpty(s: string)
    ensures Trim(s) == [] <==> AllWhitespace(s)
  {
    var r := Trim(s);
    var i := LeadingSpace(s);
    TrimIsMiddle(s);
    TrimCutsWhitespace(s);
    if r != [] {
      assert s[i] == r[0];
    }
  }

  lemma {:induction false} CompactEmpty(parts: seq<string>)
    ensures Compact(parts) == [] <==> forall i :: 0 <= i < |parts| ==> parts[i] == ""
  {
    if |parts| > 0 {
      var n := |parts| - 1;
      CompactEmpty(parts[..n]);
      assert forall i :: 0 <= i < n ==> parts[..n][i] == parts[i];
    }
  }

  /** A character the reply may consist of without naming a dish. */
  predicate IsBlank(c: char) {
    c == ',' || IsWhitespace(c)
  }

  predicate AllBlank(s: string) {
    forall i :: 0 <= i < |s| ==> IsBlank(s[i])
  }

  predicate AllBlankParts(parts: seq<string>) {
    forall k :: 0 <= k < |parts| ==> AllWhitespace(parts[k])
  }

  lemma BlankCons(s: string)
    requires |s| > 0
    ensures AllBlank(s) <==> IsBlank(s[0]) && AllBlank(s[1..])
  {
    assert forall i :: 0 < i < |s| ==> s[1..][i - 1] == s[i];
  }

  lemma WhitespaceCons(c: char, t: string)
    ensures AllWhitespace([c] + t) <==> IsWhitespace(c) && AllWhitespace(t)
  {
    var s := [c] + t;
    assert forall i :: 0 < i < |s| ==> s[i] == t[i - 1];
    if AllWhitespace(s) {
      assert IsWhitespace(s[0]);
      forall j | 0 <= j < |t|
        ensures IsWhitespace(t[j])
      {
        assert s[j + 1] == t[j];
      }
    }
    if IsWhitespace(c) && AllWhitespace(t) {
      forall j | 0 <= j < |s|
        ensures IsWhitespace(s[j])
      {
        if j > 0 {
          assert s[j] == t[j - 1];
        }
      }
    }
  }

  lemma PartsCons(x: string, rest: seq<string>)
    ensures AllBlankParts([x] + rest) <==> AllWhitespace(x) && AllBlankParts(rest)
  {
    var parts := [x] + rest;
    if AllBlankParts(parts) {
      assert AllWhitespace(parts[0]);
      forall k | 0 <= k < |rest|
        ensures AllWhitespace(rest[k])
      {
        assert parts[k + 1] == rest[k];
      }
    }
    if AllWhitespace(x) && AllBlankParts(rest) {
      forall k | 0 <= k < |parts|
        ensures AllWhitespace(parts[k])
      {
        if k > 0 {
          assert parts[k] == rest[k - 1];
        }
      }
    }
  }

  /** Every piece of the split is all whitespace exactly when the string is
      made of commas and whitespace. */
  lemma {:induction false} SplitAllBlank(s: string)
    ensures AllBlankParts(Split(s, ',')) <==> AllBlank(s)
  {
    if |s| > 0 {
      var rest := Split(s[1..], ',');
      SplitAllBlank(s[1..]);
      BlankCons(s);
      if s[0] == ',' {
        PartsCons("", rest);
      } else {
        var first := [s[0]] + rest[0];
        PartsCons(first, rest[1..]);
        PartsCons(rest[0], rest[1..]);
        assert [rest[0]] + rest[1..] == rest;
        WhitespaceCons(s[0], rest[0]);
      }
    }
  }

  /** No food is detected exactly when the reply holds nothing but commas and
      whitespace. */
  lemma NoFoodsExactlyWhenBlank(text: string)
    ensures ParseFoods(text) == [] <==> AllBlank(text)
  {
    var parts := Split(text, ',');
    var trimmed := TrimAll(parts);
    CompactEmpty(trimmed);
    forall k | 0 <= k < |parts|
      ensures trimmed[k] == [] <==> AllWhitespace(parts[k])
    {
      TrimEmpty(parts[k]);
    }
    SplitAllBlank(text);
  }

  // ---------------------------------------------------------------- reading a list back

  /** Every piece after the first with a space in front, as ", " writes them. */
  function Spaced(fs: seq<string>): (out: seq<string>)
    ensures |out| == |fs|
    ensures |fs| > 0 ==> out[0] == fs[0]
    ensures forall i :: 1 <= i < |fs| ==> out[i] == " " + fs[i]
  {
    if |fs| == 0 then [] else [fs[0]] + seq(|fs| - 1, i requires 0 <= i < |fs| - 1 => " " + fs[i + 1])
  }

  /** Text put in front of the first piece ends up in front of the join. */
  lemma JoinPrefixFirst(ps: seq<string>, p: string, sep: string)
    requires |ps| >= 1
    ensures Join([p + ps[0]] + ps[1..], sep) == p + Join(ps, sep)
  {
    var qs := [p + ps[0]] + ps[1..];
    if |ps| >= 2 {
      assert qs[1..] == ps[1..];
      assert Join(qs, sep) == (p + ps[0]) + sep + Join(ps[1..], sep);
      assert (p + ps[0]) + sep + Join(ps[1..], sep) == p + (ps[0] + sep + Join(ps[1..], sep));
    }
  }

  /** Joining with ", " is joining with "," the pieces after the first with a
      space in front. */
  lemma {:induction false} JoinSpaced(fs: seq<string>)
    ensures Join(fs, ", ") == Join(Spaced(fs), ",")
  {
    if |fs| >= 2 {
      var tail := fs[1..];
      JoinSpaced(tail);
      var sp := Spaced(fs);
      var st := Spaced(tail);
      assert sp[1..] == [" " + st[0]] + st[1..];
      JoinPrefixFirst(st, " ", ",");
      var x := Join(tail, ", ");
      assert Join(sp, ",") == fs[0] + "," + (" " + x);
      assert Join(fs, ", ") == fs[0] + ", " + x;
      assert fs[0] + "," + (" " + x) == fs[0] + ", " + x;
    }
  }

  lemma TrimSpaced(f: string)
    requires IsFood(f)
    ensures Trim(" " + f) == f
  {
    assert (" " + f)[1..] == f;
    TrimOfTrimmed(f);
  }

  lemma {:induction false} CompactOfFoods(fs: seq<string>)
    requires forall i :: 0 <= i < |fs| ==> fs[i] != ""
    ensures Compact(fs) == fs
  {
    if |fs| > 0 {
      CompactOfFoods(fs[..|fs| - 1]);
      assert fs[..|fs| - 1] + [fs[|fs| - 1]] == fs;
    }
  }

  lemma TrimAllSpaced(fs: seq<string>)
    requires forall i :: 0 <= i < |fs| ==> IsFood(fs[i])
    ensures TrimAll(Spaced(fs)) == fs
  {
    var sp := Spaced(fs);
    var trimmed := TrimAll(sp);
    forall i | 0 <= i < |fs|
      ensures trimmed[i] == fs[i]
    {
      if i == 0 {
        TrimOfTrimmed(fs[0]);
      } else {
        assert sp[i] == " " + fs[i];
        TrimSpaced(fs[i]);
      }
    }
  }

  lemma SpacedCommaFree(fs: seq<string>)
    requires forall i :: 0 <= i < |fs| ==> IsFood(fs[i])
    ensures forall i :: 0 <= i < |fs| ==> ',' !in Spaced(fs)[i]
  {
    var sp := Spaced(fs);
    forall i | 1 <= i < |fs|
      ensures ',' !in sp[i]
    {
      assert sp[i] == " " + fs[i];
    }
  }

  /** A list of dishes written the way the prompt asks ("Pizza, Salad,
      Fries") is read back as exactly that list. */
  lemma ParseFoodsReadsList(fs: seq<string>)
    requires |fs| >= 1
    requires forall i :: 0 <= i < |fs| ==> IsFood(fs[i])
    ensures ParseFoods(Join(fs, ", ")) == fs
  {
    JoinSpaced(fs);
    SpacedCommaFree(fs);
    SplitJoin(Spaced(fs), ',');
    TrimAllSpaced(fs);
    CompactOfFoods(fs);
  }

  /** The prompt's own example reads as two dishes. */
  lemma ParsePizzaBurger()
    ensures ParseFoods("Pizza, Burger") == ["Pizza", "Burger"]
  {
    assert Join(["Pizza", "Burger"], ", ") == "Pizza, Burger";
    ParseFoodsReadsList(["Pizza", "Burger"]);
  }

  lemma TrimAllMembership(parts: seq<string>, f: string)
    ensures f in TrimAll(parts) <==> exists k :: 0 <= k < |parts| && Trim(parts[k]) == f
  {
    var trimmed := TrimAll(parts);
    if f in trimmed {
      var k :| 0 <= k < |trimmed| && trimmed[k] == f;
      assert Trim(parts[k]) == f;
    }
    if exists k :: 0 <= k < |parts| && Trim(parts[k]) == f {
      var k :| 0 <= k < |parts| && Trim(parts[k]) == f;
      assert trimmed[k] == f;
    }
  }

  /** Only an unfolding of `ParseFoods`' definition into its three steps,
      so the proofs below reason about the steps and not the body. */
  lemma ParseFoodsSteps(text: string)
    ensures ParseFoods(text) == Compact(TrimAll(Split(text, ',')))
  {
  }

  /** For any reply, a detected food is exactly a non-empty trimmed comma
      piece of it. */
  lemma ParseFoodsMembership(text: string, f: string)
    ensures f in ParseFoods(text) <==>
              f != "" && exists k :: 0 <= k < |Split(text, ',')| && Trim(Split(text, ',')[k]) == f
  {
    var parts := Split(text, ',');
    ParseFoodsSteps(text);
    TrimAllMembership(parts, f);
  }

  lemma {:induction false} TrimAllAppend(a: seq<string>, b: seq<string>)
    ensures TrimAll(a + b) == TrimAll(a) + TrimAll(b)
  {
    if |b| > 0 {
      var n := |b| - 1;
      TrimAllAppend(a, b[..n]);
      assert (a + b)[..|a + b| - 1] == a + b[..n];
      assert (a + b)[|a + b| - 1] == b[n];
    } else {
      assert a + b == a;
    }
  }

  /** A reply without a comma names at most one dish: its trimmed text. */
  lemma ParseFoodsOnePiece(text: string)
    requires ',' !in text
    ensures ParseFoods(text) == if Trim(text) == "" then [] else [Trim(text)]
  {
    SplitWithoutSeparator(text, ',');
    var trimmed := TrimAll([text]);
    assert trimmed == [Trim(text)];
    assert trimmed[..0] == [];
  }

  /** The dishes come out in reply order: the pieces before the first comma
      come first, followed by the dishes of the rest. */
  lemma ParseFoodsFirstPiece(a: string, b: string)
    requires ',' !in a
    ensures ParseFoods(a + [','] + b) == ParseFoods(a) + ParseFoods(b)
  {
    SplitAtSeparator(a, b, ',');
    SplitWithoutSeparator(a, ',');
    TrimAllAppend([a], Split(b, ','));
    CompactAppend(TrimAll([a]), TrimAll(Split(b, ',')));
  }

  // ---------------------------------------------------------------- the query

  /** `Cuisines: { $in: foods.map(f => new RegExp(f, "i")) }`: some detected
      dish occurs in the cuisines, ignoring case. */
  predicate ServesAny(r: Restaurant, foods: seq<string>)
    ensures |foods| == 0 ==> !ServesAny(r, foods)
    ensures "" in foods ==> ServesAny(r, foods)
  {
    exists i :: 0 <= i < |foods| && ContainsIgnoreCase(r.cuisines, foods[i])
  }

  /** The documents serving any of the foods, in store order, without a cap. */
  function Serving(rs: seq<Restaurant>, foods: seq<string>): (out: seq<Restaurant>)
    ensures |out| <= |rs|
    ensures forall r :: r in out ==> r in rs && ServesAny(r, foods)
  {
    if |rs| == 0 then []
    else
      var init := Serving(rs[..|rs| - 1], foods);
      var last := rs[|rs| - 1];
      assert forall r :: r in rs[..|rs| - 1] ==> r in rs;
      if ServesAny(last, foods) then init + [last] else init
  }

  lemma {:induction false} ServingComplete(rs: seq<Restaurant>, foods: seq<string>, r: Restaurant)
    requires r in rs && ServesAny(r, foods)
    ensures r in Serving(rs, foods)
  {
    var n := |rs| - 1;
    if rs[n] != r {
      assert r in rs[..n] by {
        var k :| 0 <= k < |rs| && rs[k] == r;
        assert rs[..n][k] == r;
      }
      ServingComplete(rs[..n], foods, r);
    }
  }

  /** The query keeps store order. */
  lemma {:induction false} ServingAppend(a: seq<Restaurant>, b: seq<Restaurant>, foods: seq<string>)
    ensures Serving(a + b, foods) == Serving(a, foods) + Serving(b, foods)
  {
    if |b| == 0 {
      assert a + b == a;
    } else {
      var b' := b[..|b| - 1];
      assert (a + b)[..|a + b| - 1] == a + b';
      ServingAppend(a, b', foods);
    }
  }

  datatype ImageSearchResponse = ImageSearchResponse(
    detectedFoods: seq<string>,
    restaurants: seq<Restaurant>)

  /** `POST /search` with an upload: 400 without a file, 500 when the AI call
      fails, 404 when the reply names no food, otherwise the detected foods
      and every stored document serving one of them. `ai` stands for the
      model call with a model name, the prompt and the image. */
  function ImageSearch(file: Option<Upload>, ai: (string, string, Upload) -> AiReply,
                       store: seq<Restaurant>): (r: Result<ImageSearchResponse, HttpError>)
    ensures file.None? <==> r.Failure? && r.error.Status() == 400
    ensures r.Failure? && r.error.Status() == 500 <==>
              file.Some? && ai(AiModel, Prompt, file.value).CallFailed?
    ensures r.Failure? && r.error.Status() == 404 <==>
              && file.Some? && ai(AiModel, Prompt, file.value).Reply?
              && ParseFoods(ai(AiModel, Prompt, file.value).text) == []
    ensures r.Success? ==>
              && file.Some? && ai(AiModel, Prompt, file.value).Reply?
              && r.value.detectedFoods == ParseFoods(ai(AiModel, Prompt, file.value).text) != []
              && (forall x :: x in r.value.restaurants <==>
                                x in store && ServesAny(x, r.value.detectedFoods))
  {
    match file
    case None => Failure(BadRequest("Please upload an image"))
    case Some(upload) =>
      match ai(AiModel, Prompt, upload)
      case CallFailed =>
        Failure(ServerError("An unexpected server error occurred during image analysis."))
      case Reply(text) =>
        var foods := ParseFoods(text);
        if |foods| == 0 then
          Failure(NotFound("Could not identify any food items in the image."))
        else
          var found := Serving(store, foods);
          assert forall x :: x in store && ServesAny(x, foods) ==> x in found by {
            forall x | x in store && ServesAny(x, foods)
              ensures x in found
            {
              ServingComplete(store, foods, x);
            }
          }
          Success(ImageSearchResponse(foods, found))
  }

  /** A document whose cuisines name a detected dish verbatim is returned. */
  lemma ImageSearchFindsCuisine(file: Upload, ai: (string, string, Upload) -> AiReply,
                                store: seq<Restaurant>, r: Restaurant, dish: string)
    requires ai(AiModel, Prompt, file).Reply?
    requires dish in ParseFoods(ai(AiModel, Prompt, file).text)
    requires r in store && Contains(r.cuisines, dish)
    ensures ImageSearch(Some(file), ai, store).Success?
    ensures r in ImageSearch(Some(file), ai, store).value.restaurants
  {
    var foods := ParseFoods(ai(AiModel, Prompt, file).text);
    ExactOccurrenceMatches(r.cuisines, dish);
    var i :| 0 <= i < |foods| && foods[i] == dish;
    assert ServesAny(r, foods);
    ServingComplete(store, foods, r);
    ImageSearchAnswers(file, ai, store);
  }

  lemma ImageSearchAnswers(file: Upload, ai: (string, string, Upload) -> AiReply, store: seq<Restaurant>)
    requires ai(AiModel, Prompt, file).Reply?
    requires ParseFoods(ai(AiModel, Prompt, file).text) != []
    ensures var foods := ParseFoods(ai(AiModel, Prompt, file).text);
            ImageSearch(Some(file), ai, store) == Success(ImageSearchResponse(foods, Serving(store, foods)))
  {
  }
}
