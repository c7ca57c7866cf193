/** The published-models list of components/ModelGallery.tsx: the search filter
    over titles and descriptions, and the choice between the two empty states
    and the grid of cards. */
module ModelGallery {
  import opened Types
  import opened JsString
  import opened Seqs

  /** The lowercased title or the lowercased description includes the lowercased term. */
  predicate Matches(m: ModelData, term: string) {
    Contains(ToLower(m.title), ToLower(term)) || Contains(ToLower(m.description), ToLower(term))
  }

  /** The callback given to `models.filter`. */
  function MatchesTerm(term: string): ModelData -> bool {
    m => Matches(m, term)
  }

  /** `models.filter(model => ...)`: the models that match, in catalog order. */
  function FilterModels(models: seq<ModelData>, term: string): (r: seq<ModelData>)
    ensures |r| <= |models|
    ensures forall i | 0 <= i < |r| :: Matches(r[i], term)
  {
    FilterSatisfies(models, MatchesTerm(term));
    Filter(models, MatchesTerm(term))
  }

  /** A model is shown, as many times as it occurs in the catalog, exactly when it matches. */
  lemma FilterModelsMultiset(models: seq<ModelData>, term: string, m: ModelData)
    ensures multiset(FilterModels(models, term))[m] == if Matches(m, term) then multiset(models)[m] else 0
    ensures m in FilterModels(models, term) <==> m in models && Matches(m, term)
    ensures IsSubsequence(FilterModels(models, term), models)
  {
    FilterMultiset(models, MatchesTerm(term), m);
    FilterMembers(models, MatchesTerm(term), m);
    FilterIsSubsequence(models, MatchesTerm(term));
  }

  /** Filtering again with the same term changes nothing. */
  lemma FilterModelsIdempotent(models: seq<ModelData>, term: string)
    ensures FilterModels(FilterModels(models, term), term) == FilterModels(models, term)
  {
    FilterIdempotent(models, MatchesTerm(term));
  }

  /** An empty term keeps every model. */
  lemma EmptyTermKeepsAll(models: seq<ModelData>)
    ensures FilterModels(models, "") == models
  {
    assert ToLower("") == "";
    forall i | 0 <= i < |models|
      ensures MatchesTerm("")(models[i])
    {
      ContainsEmpty(ToLower(models[i].title));
    }
    FilterKeepsAll(models, MatchesTerm(""));
  }

  /** The case of the term does not matter. */
  lemma CaseInsensitive(models: seq<ModelData>, term: string)
    ensures FilterModels(models, ToLower(term)) == FilterModels(models, term)
  {
    ToLowerIdempotent(term);
    FilterAgree(models, MatchesTerm(ToLower(term)), MatchesTerm(term));
  }

  /** What the list area shows. */
  datatype Display = NoModelsYet | NoModelsFound(term: string) | Grid(cards: seq<ModelData>)

  /** The three-way choice, from the catalog and the debounced search term. */
  function GalleryDisplay(models: seq<ModelData>, term: string): (d: Display)
    // an empty catalog shows the first-upload hint whatever the term
    ensures d.NoModelsYet? <==> models == []
    // "No Models Found" only for a non-empty term that matches nothing
    ensures d.NoModelsFound? <==>
              models != [] && term != "" && forall i | 0 <= i < |models| :: !Matches(models[i], term)
    ensures d.NoModelsFound? ==> d.term == term
    // otherwise the grid, one card per model that matches, in catalog order
    ensures d.Grid? ==> d.cards == FilterModels(models, term)
  {
    var filtered := FilterModels(models, term);
    if |models| == 0 then NoModelsYet
    else if |filtered| == 0 && term != "" then
      assert forall i | 0 <= i < |models| :: !Matches(models[i], term) by {
        forall i | 0 <= i < |models|
          ensures !Matches(models[i], term)
        {
          FilterModelsMultiset(models, term, models[i]);
        }
      }
      NoModelsFound(term)
    else
      assert term != "" ==> exists i | 0 <= i < |models| :: Matches(models[i], term) by {
        if term != "" {
          FilterModelsMultiset(models, term, filtered[0]);
        }
      }
      Grid(filtered)
  }

  /** With no term the grid shows the whole catalog. */
  lemma NoTermShowsAll(models: seq<ModelData>)
    requires models != []
    ensures GalleryDisplay(models, "") == Grid(models)
  {
    EmptyTermKeepsAll(models);
  }

  /** The grid always has at least one card. */
  lemma GridNotEmpty(models: seq<ModelData>, term: string)
    requires GalleryDisplay(models, term).Grid?
    ensures GalleryDisplay(models, term).cards != []
  {
    if term == "" {
      EmptyTermKeepsAll(models);
    }
  }
}
