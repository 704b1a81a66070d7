/**
 * The pure helpers of the quick-feed text box of the feeding widget: the
 * display name of a food, the suggestion filter, the exact-text match and the
 * arrow-key movement of the highlighted suggestion. `foods` is the list of
 * food keys read from the gallery (`allFoods`), in gallery order; the food
 * image sources play no part in these decisions.
 */
module QuickFeed {
  import opened Wrappers
  import opened Text

  /** A food's display name: its key with the first letter capitalised. */
  function DisplayName(key: string): (name: string)
    ensures |name| == |key|
    ensures Lower(name) == Lower(key)
    ensures key == "" ==> name == ""
    ensures |key| > 0 ==> name[0] == UpperChar(key[0]) && name[1..] == key[1..]
  {
    LowerCapitalize(key);
    Capitalize(key)
  }

  /** The search term of the input event: the trimmed, lower-cased input. */
  function SearchTerm(input: string): string {
    Lower(Trim(input))
  }

  /** The filter test: the lower-cased name or the lower-cased key starts
      with the term. */
  predicate SuggestionMatches(key: string, term: string) {
    StartsWith(Lower(DisplayName(key)), term) || StartsWith(Lower(key), term)
  }

  /** `allFoods.filter(...)`: the matching foods in gallery order. */
  function FilterFoods(foods: seq<string>, term: string): seq<string>
    decreases |foods|
  {
    if foods == [] then []
    else (if SuggestionMatches(foods[0], term) then [foods[0]] else []) + FilterFoods(foods[1..], term)
  }

  /** The suggestions shown for an input: none for a blank input, else the
      filtered foods. */
  function Suggestions(foods: seq<string>, input: string): seq<string> {
    var term := SearchTerm(input);
    if term == "" then [] else FilterFoods(foods, term)
  }

  /** Because a display name lower-cases to its key, the name test adds
      nothing: the suggestions are exactly the foods whose lower-cased key
      starts with the non-blank search term, none of them invented. */
  lemma {:induction false} FilterFoodsByKeyPrefix(foods: seq<string>, term: string)
    ensures |FilterFoods(foods, term)| <= |foods|
    ensures forall k :: k in FilterFoods(foods, term) ==> k in foods && StartsWith(Lower(k), term)
    ensures forall k :: k in foods && StartsWith(Lower(k), term) ==> k in FilterFoods(foods, term)
    decreases |foods|
  {
    if foods != [] {
      FilterFoodsByKeyPrefix(foods[1..], term);
      assert forall k :: k in foods[1..] ==> k in foods;
      assert forall k :: k in foods ==> k == foods[0] || k in foods[1..];
    }
  }

  /** The suggestion list holds exactly the foods whose lower-cased key
      starts with the trimmed, lower-cased input, and nothing for a blank
      input. */
  lemma SuggestionsSpec(foods: seq<string>, input: string)
    ensures SearchTerm(input) == "" ==> Suggestions(foods, input) == []
    ensures forall k :: k in Suggestions(foods, input) <==>
      SearchTerm(input) != "" && k in foods && StartsWith(Lower(k), SearchTerm(input))
  {
    FilterFoodsByKeyPrefix(foods, SearchTerm(input));
  }

  /** `addFoodByText`'s search: the first food whose lower-cased name or key
      equals the lower-cased text. */
  function FindByText(foods: seq<string>, text: string): (found: Option<string>)
    ensures found.Some? ==> exists i :: 0 <= i < |foods| && foods[i] == found.value
                              && forall j :: 0 <= j < i ==> Lower(foods[j]) != Lower(text)
    ensures found.Some? ==> Lower(found.value) == Lower(text)
    ensures found.None? ==> forall j :: 0 <= j < |foods| ==> Lower(foods[j]) != Lower(text)
    decreases |foods|
  {
    if foods == [] then None
    else if Lower(DisplayName(foods[0])) == Lower(text) || Lower(foods[0]) == Lower(text) then Some(foods[0])
    else
      var r := FindByText(foods[1..], text);
      assert forall j :: 0 < j < |foods| ==> foods[j] == foods[1..][j - 1];
      if r.Some? then
        var i :| 0 <= i < |foods[1..]| && foods[1..][i] == r.value
                 && forall j :: 0 <= j < i ==> Lower(foods[1..][j]) != Lower(text);
        assert foods[i + 1] == r.value;
        r
      else r
  }

  /** ArrowDown: `Math.min(index + 1, count - 1)`. The highlight never passes
      the last suggestion, stays at -1 when there are none, and stays in
      [-1, count - 1] when it starts there. */
  function NextIndex(index: int, count: nat): (next: int)
    ensures next <= count - 1
    ensures count == 0 && -2 <= index ==> next == -1
    ensures -1 <= index < count ==> -1 <= next < count && (index < count - 1 ==> next == index + 1)
  {
    if index + 1 < count - 1 then index + 1 else count - 1
  }

  /** ArrowUp: `Math.max(index - 1, -1)`. The highlight never goes below -1
      (no suggestion highlighted) and never grows, so an index in
      [-1, count - 1] stays there. */
  function PreviousIndex(index: int): (previous: int)
    ensures -1 <= previous
    ensures previous <= index || previous == -1
    ensures 0 <= index ==> previous == index - 1
  {
    if index - 1 > -1 then index - 1 else -1
  }
}
